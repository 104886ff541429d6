/** The pieces of Python's string and `os.path` behaviour that the pipeline relies on:
    decimal rendering and `{:02d}` padding, `startswith`, the `in` operator on strings,
    the `<=` order on strings, and POSIX `os.path.join` / `os.path.dirname`. */
module Strings {

  // ---------------------------------------------------------------- sequences

  lemma AppendAssoc<T>(a: seq<T>, b: seq<T>, c: seq<T>)
    ensures a + b + c == a + (b + c)
  {
  }

  lemma TakeSnoc<T>(s: seq<T>, i: nat)
    requires i < |s|
    ensures s[..i + 1] == s[..i] + [s[i]]
  {
  }

  // ---------------------------------------------------------------- decimal digits

  predicate IsDigit(c: char) {
    '0' <= c <= '9'
  }

  predicate AllDigits(s: string) {
    forall i :: 0 <= i < |s| ==> IsDigit(s[i])
  }

  function DigitChar(d: nat): (c: char)
    requires d < 10
    ensures IsDigit(c) && c as int == '0' as int + d
  {
    ('0' as int + d) as char
  }

  function DigitValue(c: char): (d: nat)
    requires IsDigit(c)
    ensures d < 10 && DigitChar(d) == c
  {
    c as int - '0' as int
  }

  /** `str(n)` for a non-negative integer: its shortest decimal representation. */
  function NatToString(n: nat): (s: string)
    ensures |s| >= 1 && AllDigits(s)
    ensures (n < 10) == (|s| == 1)
    decreases n
  {
    if n < 10 then [DigitChar(n)] else NatToString(n / 10) + [DigitChar(n % 10)]
  }

  /** The value of a string of decimal digits (the empty string reads as 0). */
  function ParseDecimal(s: string): nat
    requires AllDigits(s)
  {
    if s == [] then 0 else 10 * ParseDecimal(s[..|s| - 1]) + DigitValue(s[|s| - 1])
  }

  /** Reading back a rendered number gives the number. */
  lemma {:induction false} ParseNatToString(n: nat)
    ensures ParseDecimal(NatToString(n)) == n
    decreases n
  {
    if n >= 10 {
      var s := NatToString(n);
      assert s[..|s| - 1] == NatToString(n / 10);
      ParseNatToString(n / 10);
    }
  }

  /** Distinct numbers render to distinct strings. */
  lemma NatToStringInjective(a: nat, b: nat)
    ensures NatToString(a) == NatToString(b) ==> a == b
  {
    ParseNatToString(a);
    ParseNatToString(b);
  }

  /** Python's `f"{n:02d}"` for n >= 0: the decimal form, zero-padded on the left to at
      least two characters. */
  function Pad2(n: nat): (s: string)
    ensures |s| >= 2 && AllDigits(s)
    ensures n < 100 ==> s == [DigitChar(n / 10), DigitChar(n % 10)]
  {
    var d := NatToString(n);
    assert 10 <= n < 100 ==> NatToString(n / 10) == [DigitChar(n / 10)];
    if |d| < 2 then "0" + d else d
  }

  /** Zero padding does not change the value that the digits denote. */
  lemma ParsePad2(n: nat)
    ensures ParseDecimal(Pad2(n)) == n
  {
    ParseNatToString(n);
    var d := NatToString(n);
    if |d| < 2 {
      assert ("0" + d)[..1] == "0";
    }
  }

  // ---------------------------------------------------------------- substrings

  /** `s.startswith(p)`. */
  predicate HasPrefix(s: string, p: string) {
    |p| <= |s| && s[..|p|] == p
  }

  /** Python's `needle in hay` on strings, scanning start positions left to right. */
  predicate Contains(hay: string, needle: string)
    decreases |hay|
  {
    HasPrefix(hay, needle) || (hay != [] && Contains(hay[1..], needle))
  }

  /** `needle` occurs in `hay` starting at position `i`. */
  predicate OccursAt(hay: string, needle: string, i: int) {
    0 <= i && i + |needle| <= |hay| && hay[i..i + |needle|] == needle
  }

  /** The scan finds the needle exactly when it occurs at some position. */
  lemma {:induction false} ContainsIff(hay: string, needle: string)
    ensures Contains(hay, needle) <==> exists i :: OccursAt(hay, needle, i)
    decreases |hay|
  {
    if HasPrefix(hay, needle) {
      assert OccursAt(hay, needle, 0);
    } else if hay == [] {
    } else {
      ContainsIff(hay[1..], needle);
      if exists i :: OccursAt(hay[1..], needle, i) {
        var i :| OccursAt(hay[1..], needle, i);
        assert hay[i + 1..i + 1 + |needle|] == hay[1..][i..i + |needle|];
        assert OccursAt(hay, needle, i + 1);
      }
      if exists i :: OccursAt(hay, needle, i) {
        var i :| OccursAt(hay, needle, i);
        assert i != 0;
        assert hay[1..][i - 1..i - 1 + |needle|] == hay[i..i + |needle|];
        assert OccursAt(hay[1..], needle, i - 1);
      }
    }
  }

  // ---------------------------------------------------------------- string order

  /** Python's `a <= b` on strings: code point by code point, a proper prefix first. */
  predicate LexLe(a: string, b: string)
    decreases |a|
  {
    if a == [] then true
    else if b == [] then false
    else if a[0] != b[0] then a[0] < b[0]
    else LexLe(a[1..], b[1..])
  }

  /** A shared prefix does not affect the comparison. */
  lemma {:induction false} LexLeCommonPrefix(u: string, a: string, b: string)
    ensures LexLe(u + a, u + b) == LexLe(a, b)
    decreases |u|
  {
    if u == [] {
      assert u + a == a && u + b == b;
    } else {
      assert (u + a)[0] == u[0] == (u + b)[0];
      assert (u + a)[1..] == u[1..] + a;
      assert (u + b)[1..] == u[1..] + b;
      LexLeCommonPrefix(u[1..], a, b);
    }
  }

  /** Two different blocks of equal length decide the comparison on their own. */
  lemma {:induction false} LexLeDecidedByBlock(u: string, v: string, a: string, b: string)
    requires |u| == |v| && u != v
    ensures LexLe(u + a, v + b) == LexLe(u, v)
    decreases |u|
  {
    if u[0] == v[0] {
      assert u[1..] != v[1..] by {
        assert u == [u[0]] + u[1..] && v == [v[0]] + v[1..];
      }
      assert (u + a)[1..] == u[1..] + a;
      assert (v + b)[1..] == v[1..] + b;
      LexLeDecidedByBlock(u[1..], v[1..], a, b);
    }
  }

  /** For numbers below 100, comparing their two-digit forms compares the numbers. */
  lemma LexLePad2(x: nat, y: nat)
    requires x < 100 && y < 100
    ensures LexLe(Pad2(x), Pad2(y)) <==> x <= y
  {
    var p, q := Pad2(x), Pad2(y);
    assert x == 10 * (x / 10) + x % 10 && y == 10 * (y / 10) + y % 10;
    assert p[1..] == [DigitChar(x % 10)] && q[1..] == [DigitChar(y % 10)];
    assert p[1..][1..] == [] && q[1..][1..] == [];
    if x / 10 != y / 10 {
      assert LexLe(p, q) == (x / 10 < y / 10);
    } else {
      assert LexLe(p, q) == LexLe(p[1..], q[1..]);
      assert LexLe(p[1..], q[1..]) == (x % 10 <= y % 10);
    }
  }

  // ---------------------------------------------------------------- POSIX paths

  /** `os.path.join(a, b)` on POSIX: an absolute `b` replaces `a`; otherwise a single
      separator is inserted unless `a` is empty or already ends with one. */
  function Join(a: string, b: string): (r: string)
    ensures HasPrefix(b, "/") ==> r == b
    ensures !HasPrefix(b, "/") ==> |r| >= |b| && r[|r| - |b|..] == b
  {
    if HasPrefix(b, "/") then b
    else if a == [] || a[|a| - 1] == '/' then a + b
    else a + "/" + b
  }

  /** Joining onto a fixed directory loses nothing: relative names stay apart. */
  lemma JoinInjective(a: string, b1: string, b2: string)
    requires !HasPrefix(b1, "/") && !HasPrefix(b2, "/")
    ensures Join(a, b1) == Join(a, b2) ==> b1 == b2
  {
    var sep := if a == [] || a[|a| - 1] == '/' then a else a + "/";
    assert Join(a, b1) == sep + b1 && Join(a, b2) == sep + b2;
    if Join(a, b1) == Join(a, b2) {
      assert b1 == (sep + b1)[|sep|..];
      assert b2 == (sep + b2)[|sep|..];
    }
  }

  /** `s.rstrip('/')`. */
  function RStripSlashes(s: string): (r: string)
    ensures |r| <= |s| && r == s[..|r|]
    ensures r == [] || r[|r| - 1] != '/'
    ensures forall i :: |r| <= i < |s| ==> s[i] == '/'
  {
    if s == [] || s[|s| - 1] != '/' then s else RStripSlashes(s[..|s| - 1])
  }

  /** Index just past the last `/` in `s` (0 when there is none): `s.rfind('/') + 1`. */
  function AfterLastSlash(s: string): (k: nat)
    ensures k <= |s|
    ensures k > 0 ==> s[k - 1] == '/'
    ensures forall i :: k <= i < |s| ==> s[i] != '/'
  {
    if s == [] then 0
    else if s[|s| - 1] == '/' then |s|
    else AfterLastSlash(s[..|s| - 1])
  }

  /** `os.path.dirname(p)` on POSIX: everything before the last separator, with trailing
      separators removed unless the head consists of separators only. */
  function Dirname(p: string): (r: string)
    ensures |r| <= |p| && r == p[..|r|]
  {
    var head := p[..AfterLastSlash(p)];
    if head != [] && (exists i :: 0 <= i < |head| && head[i] != '/') then RStripSlashes(head) else head
  }
}
