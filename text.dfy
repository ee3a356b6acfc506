/**
 * The string primitives the tracker relies on: `String.prototype.trim` (the
 * blank-title check of addTask) and the relational operator `<` on strings
 * (the overdue test of TaskCard, which compares ISO calendar dates).
 */
module Text {

  /** The characters ECMAScript's `trim` removes: WhiteSpace and LineTerminator. */
  predicate IsSpace(c: char) {
    || c == '\t' || c == '\n' || c == '\U{000B}' || c == '\U{000C}' || c == '\r'
    || c == ' ' || c == '\U{00A0}' || c == '\U{1680}'
    || ('\U{2000}' <= c <= '\U{200A}')
    || c == '\U{2028}' || c == '\U{2029}' || c == '\U{202F}' || c == '\U{205F}'
    || c == '\U{3000}' || c == '\U{FEFF}'
  }

  /** `s` without its leading white space. */
  function TrimStart(s: string): (r: string)
    ensures |r| <= |s| && r == s[|s| - |r|..]
    ensures forall i :: 0 <= i < |s| - |r| ==> IsSpace(s[i])
    ensures r != [] ==> !IsSpace(r[0])
  {
    if s != [] && IsSpace(s[0]) then TrimStart(s[1..]) else s
  }

  /** `s` without its trailing white space. */
  function TrimEnd(s: string): (r: string)
    ensures |r| <= |s| && r == s[..|r|]
    ensures forall i :: |r| <= i < |s| ==> IsSpace(s[i])
    ensures r != [] ==> !IsSpace(r[|r| - 1])
  {
    if s != [] && IsSpace(s[|s| - 1]) then TrimEnd(s[..|s| - 1]) else s
  }

  /** `s.trim()`: empty exactly when every character of `s` is white space. */
  function Trim(s: string): (r: string)
    ensures |r| <= |s|
    ensures r == [] <==> forall i :: 0 <= i < |s| ==> IsSpace(s[i])
    ensures r != [] ==> !IsSpace(r[0]) && !IsSpace(r[|r| - 1])
  {
    TrimEnd(TrimStart(s))
  }

  /**
   * JavaScript's `a < b` on strings: `a` is a proper prefix of `b`, or at the
   * first position where they differ the character of `a` is the smaller.
   */
  predicate Less(a: string, b: string) {
    if a == [] then b != []
    else if b == [] then false
    else if a[0] != b[0] then a[0] < b[0]
    else Less(a[1..], b[1..])
  }

  lemma {:induction false} LessIrreflexive(a: string)
    ensures !Less(a, a)
  {
    if a != [] {
      LessIrreflexive(a[1..]);
    }
  }

  lemma {:induction false} LessTransitive(a: string, b: string, c: string)
    requires Less(a, b) && Less(b, c)
    ensures Less(a, c)
  {
    if a != [] && b != [] && c != [] && a[0] == b[0] && b[0] == c[0] {
      LessTransitive(a[1..], b[1..], c[1..]);
    }
  }

  /** Two different strings are always ordered one way or the other, and never both ways. */
  lemma {:induction false} LessTrichotomy(a: string, b: string)
    ensures a == b || Less(a, b) || Less(b, a)
    ensures !(Less(a, b) && Less(b, a))
  {
    if a != [] && b != [] && a[0] == b[0] {
      LessTrichotomy(a[1..], b[1..]);
      assert a == [a[0]] + a[1..] && b == [b[0]] + b[1..];
    }
  }

  /** Comparing two concatenations whose first parts have the same length. */
  lemma {:induction false} LessConcat(x: string, y: string, x': string, y': string)
    requires |x| == |x'|
    ensures Less(x + y, x' + y') <==> if x == x' then Less(y, y') else Less(x, x')
  {
    if x != [] {
      assert (x + y)[0] == x[0] && (x' + y')[0] == x'[0];
      assert (x + y)[1..] == x[1..] + y && (x' + y')[1..] == x'[1..] + y';
      LessConcat(x[1..], y, x'[1..], y');
      if x[0] == x'[0] {
        assert x == x' <==> x[1..] == x'[1..] by {
          assert x == [x[0]] + x[1..] && x' == [x'[0]] + x'[1..];
        }
      }
    } else {
      assert x + y == y && x' + y' == y';
    }
  }

  predicate IsDigit(c: char) {
    '0' <= c <= '9'
  }

  predicate AllDigits(s: string) {
    forall i :: 0 <= i < |s| ==> IsDigit(s[i])
  }

  /** The decimal value of a string of digits. */
  function Num(s: string): nat
    requires AllDigits(s)
  {
    if s == [] then 0 else 10 * Num(s[..|s| - 1]) + (s[|s| - 1] as int - '0' as int)
  }

  /** Appending two digits multiplies the value by one hundred. */
  lemma NumAppendTwo(x: string, y: string)
    requires AllDigits(x) && AllDigits(y) && |y| == 2
    ensures AllDigits(x + y)
    ensures Num(x + y) == 100 * Num(x) + Num(y)
  {
    var xy, x0 := x + y, x + [y[0]];
    var d0, d1 := y[0] as int - '0' as int, y[1] as int - '0' as int;
    assert xy[..|xy| - 1] == x0 && xy[|xy| - 1] == y[1];
    assert x0[..|x|] == x && x0[|x|] == y[0];
    assert Num(xy) == 10 * Num(x0) + d1;
    assert Num(x0) == 10 * Num(x) + d0;
    assert y[..1] == [y[0]] && [y[0]][..0] == [];
    assert Num([y[0]]) == d0;
    assert Num(y) == 10 * d0 + d1;
  }

  /** On digit strings of one length the string order is the numeric order. */
  lemma {:induction false} DigitsOrder(a: string, b: string)
    requires AllDigits(a) && AllDigits(b) && |a| == |b|
    ensures Less(a, b) <==> Num(a) < Num(b)
    decreases |a|
  {
    if a != [] {
      var n := |a| - 1;
      var a', b' := a[..n], b[..n];
      assert a == a' + [a[n]] && b == b' + [b[n]];
      LessConcat(a', [a[n]], b', [b[n]]);
      DigitsOrder(a', b');
      LessTrichotomy(a', b');
      DigitsOrder(b', a');
    }
  }

  /** A position where both strings agree can be dropped without changing their order. */
  lemma DropCommon(a: string, b: string, k: nat)
    requires |a| == |b| && k < |a| && a[k] == b[k]
    ensures Less(a, b) <==> Less(a[..k] + a[k + 1..], b[..k] + b[k + 1..])
  {
    assert a == a[..k] + ([a[k]] + a[k + 1..]);
    assert b == b[..k] + ([b[k]] + b[k + 1..]);
    LessConcat(a[..k], [a[k]] + a[k + 1..], b[..k], [b[k]] + b[k + 1..]);
    LessConcat(a[..k], a[k + 1..], b[..k], b[k + 1..]);
    assert ([a[k]] + a[k + 1..])[1..] == a[k + 1..];
    assert ([b[k]] + b[k + 1..])[1..] == b[k + 1..];
  }

  /** An ISO 8601 calendar date `YYYY-MM-DD`, as `toISOString().split("T")[0]` and `<input type="date">` produce. */
  predicate IsIsoDate(d: string) {
    && |d| == 10 && d[4] == '-' && d[7] == '-'
    && AllDigits(d[0..4]) && AllDigits(d[5..7]) && AllDigits(d[8..10])
  }

  /** The eight digits of a date, `YYYYMMDD`. */
  function Digits(d: string): string
    requires IsIsoDate(d)
  {
    d[0..4] + d[5..7] + d[8..10]
  }

  /** The date as the number YYYYMMDD: year * 10000 + month * 100 + day. */
  function DayKey(d: string): (k: nat)
    requires IsIsoDate(d)
    ensures k == 10000 * Num(d[0..4]) + 100 * Num(d[5..7]) + Num(d[8..10])
  {
    NumAppendTwo(d[0..4], d[5..7]);
    NumAppendTwo(d[0..4] + d[5..7], d[8..10]);
    Num(Digits(d))
  }

  /** On ISO calendar dates, JavaScript's string `<` is "strictly earlier". */
  lemma IsoDateOrder(a: string, b: string)
    requires IsIsoDate(a) && IsIsoDate(b)
    ensures Less(a, b) <==> DayKey(a) < DayKey(b)
  {
    DropCommon(a, b, 7);
    var a1, b1 := a[..7] + a[8..], b[..7] + b[8..];
    DropCommon(a1, b1, 4);
    assert a1[..4] + a1[5..] == Digits(a);
    assert b1[..4] + b1[5..] == Digits(b);
    NumAppendTwo(a[0..4], a[5..7]);
    NumAppendTwo(b[0..4], b[5..7]);
    NumAppendTwo(a[0..4] + a[5..7], a[8..10]);
    NumAppendTwo(b[0..4] + b[5..7], b[8..10]);
    DigitsOrder(Digits(a), Digits(b));
  }
}
