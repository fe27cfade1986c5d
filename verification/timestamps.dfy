/** Reset-code expiry. Times are `YYYY-MM-DD HH:mm:ss` strings (moment's
    `format`) and the reset handler compares them with JavaScript's `>` on
    strings. This module proves that for this fixed-width layout the string
    comparison agrees with calendar order. */
module Timestamps {

  /** JavaScript's `a < b` on strings: lexicographic by character code, a
      proper prefix coming first. */
  predicate StrLess(a: string, b: string) {
    if b == [] then false
    else if a == [] then true
    else if a[0] != b[0] then a[0] < b[0]
    else StrLess(a[1..], b[1..])
  }

  /** The check at the reset handler: `currentTime > data.time`. A code is
      still accepted at the very second it expires; of two different strings,
      it is expired exactly when the current time does not sort first. */
  predicate IsExpired(now: string, expiry: string)
    ensures now == expiry ==> !IsExpired(now, expiry)
    ensures now != expiry ==> (IsExpired(now, expiry) <==> !StrLess(now, expiry))
  {
    StrLessIrreflexive(now);
    StrLessTotal(now, expiry);
    StrLess(expiry, now)
  }

  lemma {:induction false} StrLessIrreflexive(a: string)
    ensures !StrLess(a, a)
  {
    if a != [] {
      StrLessIrreflexive(a[1..]);
    }
  }

  lemma {:induction false} StrLessTransitive(a: string, b: string, c: string)
    requires StrLess(a, b) && StrLess(b, c)
    ensures StrLess(a, c)
  {
    if a != [] && a[0] == b[0] && b[0] == c[0] {
      StrLessTransitive(a[1..], b[1..], c[1..]);
    }
  }

  /** Any two different strings are ordered one way and not the other. */
  lemma {:induction false} StrLessTotal(a: string, b: string)
    ensures a == b || StrLess(a, b) || StrLess(b, a)
    ensures !(StrLess(a, b) && StrLess(b, a))
  {
    if a != [] && b != [] && a[0] == b[0] {
      StrLessTotal(a[1..], b[1..]);
      if a[1..] == b[1..] {
        assert a == [a[0]] + a[1..] && b == [b[0]] + b[1..];
      }
    }
  }

  /** Comparing two strings whose first parts have the same length decides on
      the first parts, and on the rest only when the first parts are equal. */
  lemma {:induction false} StrLessAppend(a: string, b: string, c: string, d: string)
    requires |a| == |b|
    ensures StrLess(a + c, b + d) <==> StrLess(a, b) || (a == b && StrLess(c, d))
  {
    if a == [] {
      assert a + c == c && b + d == d;
    } else {
      assert (a + c)[1..] == a[1..] + c && (b + d)[1..] == b[1..] + d;
      StrLessAppend(a[1..], b[1..], c, d);
      if a[0] == b[0] && a[1..] == b[1..] {
        assert a == [a[0]] + a[1..] && b == [b[0]] + b[1..];
      }
    }
  }

  // ---------------------------------------------------------------------------
  // The timestamp layout

  datatype DateTime = DateTime(year: nat, month: nat, day: nat, hour: nat, minute: nat, second: nat)

  function Pow10(w: nat): (p: nat)
    ensures p >= 1
  {
    if w == 0 then 1 else 10 * Pow10(w - 1)
  }

  function DigitChar(d: nat): char
    requires d < 10
  {
    ('0' as int + d) as char
  }

  /** `n` written with exactly `width` decimal digits, zero-padded on the left. */
  function Digits(n: nat, width: nat): (s: string)
    ensures |s| == width
  {
    if width == 0 then "" else Digits(n / 10, width - 1) + [DigitChar(n % 10)]
  }

  /** Fixed-width decimal numerals compare as strings the way the numbers compare. */
  lemma {:induction false} DigitsOrder(n: nat, m: nat, width: nat)
    requires n < Pow10(width) && m < Pow10(width)
    ensures StrLess(Digits(n, width), Digits(m, width)) <==> n < m
    ensures Digits(n, width) == Digits(m, width) <==> n == m
  {
    if width > 0 {
      var hn, hm := n / 10, m / 10;
      DigitsOrder(hn, hm, width - 1);
      StrLessAppend(Digits(hn, width - 1), Digits(hm, width - 1), [DigitChar(n % 10)], [DigitChar(m % 10)]);
      var a, b := Digits(n, width), Digits(m, width);
      if a == b {
        assert a[..width - 1] == Digits(hn, width - 1) && b[..width - 1] == Digits(hm, width - 1);
        assert a[width - 1] == DigitChar(n % 10) && b[width - 1] == DigitChar(m % 10);
      }
    }
  }

  /** The field widths of `YYYY-MM-DD HH:mm:ss`, and the character written
      before each field. */
  const Widths: seq<nat> := [4, 2, 2, 2, 2, 2]
  const Leads: seq<string> := ["", "-", "-", " ", ":", ":"]

  function Fields(t: DateTime): seq<nat> {
    [t.year, t.month, t.day, t.hour, t.minute, t.second]
  }

  /** Every field fits its width (a year below 10000, the others below 100). */
  predicate Fits(t: DateTime) {
    t.year < 10000 && t.month < 100 && t.day < 100 && t.hour < 100 && t.minute < 100 && t.second < 100
  }

  function Render(fields: seq<nat>, widths: seq<nat>, leads: seq<string>): string
    requires |fields| == |widths| == |leads|
  {
    if fields == [] then ""
    else leads[0] + Digits(fields[0], widths[0]) + Render(fields[1..], widths[1..], leads[1..])
  }

  /** moment's `format('YYYY-MM-DD HH:mm:ss')`. */
  function Format(t: DateTime): string {
    Render(Fields(t), Widths, Leads)
  }

  /** Calendar order: lexicographic on the fields, year first. */
  predicate FieldsBefore(xs: seq<nat>, ys: seq<nat>) {
    if xs == [] || ys == [] then false
    else xs[0] < ys[0] || (xs[0] == ys[0] && FieldsBefore(xs[1..], ys[1..]))
  }

  predicate Before(a: DateTime, b: DateTime) {
    FieldsBefore(Fields(a), Fields(b))
  }

  /** One field of a layout: the same lead, then digits of equal width, then the rest. */
  lemma PieceCompare(lead: string, p: string, q: string, r: string, s: string)
    requires |p| == |q|
    ensures StrLess(lead + p + r, lead + q + s) <==> StrLess(p, q) || (p == q && StrLess(r, s))
    ensures lead + p + r == lead + q + s <==> p == q && r == s
  {
    StrLessIrreflexive(lead);
    StrLessAppend(lead, lead, p, q);
    StrLessAppend(lead + p, lead + q, r, s);
    if lead + p == lead + q {
      assert (lead + p)[|lead|..] == p && (lead + q)[|lead|..] == q;
    }
    if lead + p + r == lead + q + s {
      assert (lead + p + r)[..|lead| + |p|] == lead + p;
      assert (lead + q + s)[..|lead| + |q|] == lead + q;
      assert (lead + p + r)[|lead| + |p|..] == r;
      assert (lead + q + s)[|lead| + |q|..] == s;
    }
  }

  lemma {:induction false} RenderOrder(xs: seq<nat>, ys: seq<nat>, widths: seq<nat>, leads: seq<string>)
    requires |xs| == |ys| == |widths| == |leads|
    requires forall i :: 0 <= i < |xs| ==> xs[i] < Pow10(widths[i]) && ys[i] < Pow10(widths[i])
    ensures StrLess(Render(xs, widths, leads), Render(ys, widths, leads)) <==> FieldsBefore(xs, ys)
    ensures Render(xs, widths, leads) == Render(ys, widths, leads) <==> xs == ys
  {
    if xs != [] {
      var xt, yt, wt, lt := xs[1..], ys[1..], widths[1..], leads[1..];
      forall i | 0 <= i < |xt|
        ensures xt[i] < Pow10(wt[i]) && yt[i] < Pow10(wt[i])
      {
        assert xt[i] == xs[i + 1] && yt[i] == ys[i + 1] && wt[i] == widths[i + 1];
      }
      RenderOrder(xt, yt, wt, lt);
      DigitsOrder(xs[0], ys[0], widths[0]);
      var rx, ry := Render(xt, wt, lt), Render(yt, wt, lt);
      var dx, dy := Digits(xs[0], widths[0]), Digits(ys[0], widths[0]);
      assert Render(xs, widths, leads) == leads[0] + dx + rx;
      assert Render(ys, widths, leads) == leads[0] + dy + ry;
      PieceCompare(leads[0], dx, dy, rx, ry);
      assert xs == [xs[0]] + xt && ys == [ys[0]] + yt;
    }
  }

  /** The string comparison the reset handler makes agrees with calendar order
      on well-formed timestamps: a code is expired exactly when its expiry
      time lies strictly before the current time. */
  lemma ExpiryIsCalendarOrder(now: DateTime, expiry: DateTime)
    requires Fits(now) && Fits(expiry)
    ensures IsExpired(Format(now), Format(expiry)) <==> Before(expiry, now)
    ensures Format(now) == Format(expiry) <==> now == expiry
  {
    assert Pow10(2) == 100 && Pow10(4) == 10000;
    RenderOrder(Fields(expiry), Fields(now), Widths, Leads);
  }

  /** Regrouping one field of a layout onto the text before it. */
  lemma Regroup(before: string, lead: string, digits: string, rest: string)
    ensures before + (lead + digits + rest) == before + lead + digits + rest
  {
  }

  /** The layout written out field by field: `YYYY-MM-DD HH:mm:ss`. */
  lemma FormatPieces(t: DateTime)
    ensures Format(t) == Digits(t.year, 4) + "-" + Digits(t.month, 2) + "-" + Digits(t.day, 2)
                         + " " + Digits(t.hour, 2) + ":" + Digits(t.minute, 2) + ":" + Digits(t.second, 2)
  {
    var f := Fields(t);
    var r5, r4, r3 := Render(f[5..], Widths[5..], Leads[5..]), Render(f[4..], Widths[4..], Leads[4..]), Render(f[3..], Widths[3..], Leads[3..]);
    var r2, r1 := Render(f[2..], Widths[2..], Leads[2..]), Render(f[1..], Widths[1..], Leads[1..]);
    assert f[5..][1..] == f[6..] && Widths[5..][1..] == Widths[6..] && Leads[5..][1..] == Leads[6..];
    assert r5 == ":" + Digits(t.second, 2) + Render(f[6..], Widths[6..], Leads[6..]);
    assert r5 == ":" + Digits(t.second, 2);
    assert f[4..][1..] == f[5..] && Widths[4..][1..] == Widths[5..] && Leads[4..][1..] == Leads[5..];
    assert r4 == ":" + Digits(t.minute, 2) + r5;
    assert f[3..][1..] == f[4..] && Widths[3..][1..] == Widths[4..] && Leads[3..][1..] == Leads[4..];
    assert r3 == " " + Digits(t.hour, 2) + r4;
    assert f[2..][1..] == f[3..] && Widths[2..][1..] == Widths[3..] && Leads[2..][1..] == Leads[3..];
    assert r2 == "-" + Digits(t.day, 2) + r3;
    assert f[1..][1..] == f[2..] && Widths[1..][1..] == Widths[2..] && Leads[1..][1..] == Leads[2..];
    assert r1 == "-" + Digits(t.month, 2) + r2;
    var p1 := Digits(t.year, 4);
    assert Format(t) == p1 + r1;
    Regroup(p1, "-", Digits(t.month, 2), r2);
    var p2 := p1 + "-" + Digits(t.month, 2);
    Regroup(p2, "-", Digits(t.day, 2), r3);
    var p3 := p2 + "-" + Digits(t.day, 2);
    Regroup(p3, " ", Digits(t.hour, 2), r4);
    var p4 := p3 + " " + Digits(t.hour, 2);
    Regroup(p4, ":", Digits(t.minute, 2), r5);
    var p5 := p4 + ":" + Digits(t.minute, 2);
    assert p5 + r5 == p5 + ":" + Digits(t.second, 2);
  }

  /** Numerals of one timestamp, 2024-03-09 17:05:00: zero-padded on the left. */
  lemma DigitsExample()
    ensures Digits(2024, 4) == "2024" && Digits(3, 2) == "03" && Digits(9, 2) == "09"
    ensures Digits(17, 2) == "17" && Digits(5, 2) == "05" && Digits(0, 2) == "00"
  {
    assert Digits(0, 1) == "0" && Digits(1, 1) == "1" && Digits(20, 2) == "20" && Digits(202, 3) == "202";
  }
}
