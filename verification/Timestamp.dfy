/**
 The wall-clock stamp written in front of every logged row:
 `datetime.now().strftime('%H:%M:%S.%f')[:-3]`, that is hours, minutes and
 seconds as two digits each and the six-digit microsecond field cut to its
 first three digits (milliseconds, truncated rather than rounded).
 */
module Timestamp {
  import opened Wrappers

  /** A time of day as `datetime.now()` reports it. */
  datatype Clock = Clock(hour: nat, minute: nat, second: nat, micro: nat)

  predicate ValidClock(c: Clock) {
    c.hour < 24 && c.minute < 60 && c.second < 60 && c.micro < 1000000
  }

  /** The instant the stamp can still tell apart: milliseconds since midnight. */
  function Millis(c: Clock): nat {
    ((c.hour * 60 + c.minute) * 60 + c.second) * 1000 + c.micro / 1000
  }

  function Pow10(n: nat): (r: nat)
    ensures r >= 1
  {
    if n == 0 then 1 else 10 * Pow10(n - 1)
  }

  predicate IsDigit(c: char) {
    '0' <= c <= '9'
  }

  function DigitChar(d: nat): (c: char)
    requires d < 10
    ensures IsDigit(c)
  {
    ('0' as int + d) as char
  }

  /** `n` in decimal, zero-padded to exactly `w` digits, as `%0wd` prints it. */
  function Pad(n: nat, w: nat): (r: string)
    requires n < Pow10(w)
    ensures |r| == w
    ensures forall k :: 0 <= k < |r| ==> IsDigit(r[k])
  {
    if w == 0 then [] else Pad(n / 10, w - 1) + [DigitChar(n % 10)]
  }

  /** The number a string of decimal digits denotes. */
  function DigitsValue(s: string): nat
    requires forall k :: 0 <= k < |s| ==> IsDigit(s[k])
  {
    if |s| == 0 then 0
    else
      assert IsDigit(s[|s| - 1]);
      10 * DigitsValue(s[..|s| - 1]) + (s[|s| - 1] as int - '0' as int)
  }

  /** Reading a padded number back gives the number. */
  lemma {:induction false} DigitsValuePad(n: nat, w: nat)
    requires n < Pow10(w)
    ensures DigitsValue(Pad(n, w)) == n
  {
    if w > 0 {
      DigitsValuePad(n / 10, w - 1);
      assert Pad(n, w)[..w - 1] == Pad(n / 10, w - 1);
    }
  }

  /** The microsecond field with its last three digits dropped is the millisecond field. */
  lemma MicroPrefixIsMillis(us: nat)
    requires us < 1000000
    ensures Pad(us, 6)[..3] == Pad(us / 1000, 3)
  {
    var q1 := us / 10;
    var q2 := q1 / 10;
    var q3 := q2 / 10;
    assert q3 == us / 1000;
    assert Pad(us, 6) == Pad(q1, 5) + [DigitChar(us % 10)];
    assert Pad(q1, 5) == Pad(q2, 4) + [DigitChar(q1 % 10)];
    assert Pad(q2, 4) == Pad(q3, 3) + [DigitChar(q2 % 10)];
    assert Pad(us, 6) == Pad(q3, 3) + [DigitChar(q2 % 10), DigitChar(q1 % 10), DigitChar(us % 10)];
  }

  /** True when `s` has the shape `DD:DD:DD.DDD`. */
  predicate StampShape(s: string) {
    && |s| == 12
    && s[2] == ':' && s[5] == ':' && s[8] == '.'
    && (forall k :: 0 <= k < 12 && k != 2 && k != 5 && k != 8 ==> IsDigit(s[k]))
  }

  /** Where the fields and separators of `HH:MM:SS.F` sit, for two-character `HH`, `MM` and `SS`. */
  lemma FieldsLayout(h: string, m: string, s: string, f: string)
    requires |h| == 2 && |m| == 2 && |s| == 2
    ensures var r := h + ":" + m + ":" + s + "." + f;
      && |r| == 9 + |f|
      && r[2] == ':' && r[5] == ':' && r[8] == '.'
      && r[0..2] == h && r[3..5] == m && r[6..8] == s && r[9..9 + |f|] == f
      && (forall k :: 0 <= k < 2 ==> r[k] == h[k] && r[3 + k] == m[k] && r[6 + k] == s[k])
      && (forall k :: 0 <= k < |f| ==> r[9 + k] == f[k])
  {
  }

  /**
   `strftime('%H:%M:%S.%f')`: the full fifteen-character form before truncation.
   Reading its fields back gives the clock, microseconds included.
   */
  function FullStamp(c: Clock): (r: string)
    requires ValidClock(c)
    ensures |r| == 15
    ensures r[2] == ':' && r[5] == ':' && r[8] == '.'
    ensures forall k :: 0 <= k < 15 && k != 2 && k != 5 && k != 8 ==> IsDigit(r[k])
    ensures DigitsValue(r[0..2]) == c.hour && DigitsValue(r[3..5]) == c.minute
    ensures DigitsValue(r[6..8]) == c.second && DigitsValue(r[9..15]) == c.micro
  {
    var h, m, s, us := Pad(c.hour, 2), Pad(c.minute, 2), Pad(c.second, 2), Pad(c.micro, 6);
    FieldsLayout(h, m, s, us);
    DigitsValuePad(c.hour, 2);
    DigitsValuePad(c.minute, 2);
    DigitsValuePad(c.second, 2);
    DigitsValuePad(c.micro, 6);
    h + ":" + m + ":" + s + "." + us
  }

  /** The stamp the loggers write: the full form with its last three characters sliced off. */
  function FormatTime(c: Clock): (r: string)
    requires ValidClock(c)
    ensures |r| == 12
    ensures StampShape(r)
    ensures r == Pad(c.hour, 2) + ":" + Pad(c.minute, 2) + ":" + Pad(c.second, 2) + "." + Pad(c.micro / 1000, 3)
  {
    var full := FullStamp(c);
    var h, m, s := Pad(c.hour, 2), Pad(c.minute, 2), Pad(c.second, 2);
    var us, ms := Pad(c.micro, 6), Pad(c.micro / 1000, 3);
    var head := h + ":" + m + ":" + s + ".";
    MicroPrefixIsMillis(c.micro);
    assert full == head + us;
    assert full[..12] == head + ms by {
      assert (head + us)[..12] == head + us[..3];
    }
    FieldsLayout(h, m, s, ms);
    full[..|full| - 3]
  }

  /** Reads a stamp back into hours, minutes, seconds and milliseconds. */
  function ParseStamp(s: string): Option<(nat, nat, nat, nat)> {
    if StampShape(s) then
      Some((DigitsValue(s[0..2]), DigitsValue(s[3..5]), DigitsValue(s[6..8]), DigitsValue(s[9..12])))
    else None
  }

  /**
   The stamp is re-parseable with millisecond resolution: it records the hour,
   minute and second exactly and the microseconds truncated to milliseconds.
   */
  lemma ParseFormatTime(c: Clock)
    requires ValidClock(c)
    ensures ParseStamp(FormatTime(c)) == Some((c.hour, c.minute, c.second, c.micro / 1000))
  {
    var r := FormatTime(c);
    var h, m, s, ms := Pad(c.hour, 2), Pad(c.minute, 2), Pad(c.second, 2), Pad(c.micro / 1000, 3);
    assert r[0..2] == h && r[3..5] == m && r[6..8] == s && r[9..12] == ms;
    assert StampShape(r);
    DigitsValuePad(c.hour, 2);
    DigitsValuePad(c.minute, 2);
    DigitsValuePad(c.second, 2);
    DigitsValuePad(c.micro / 1000, 3);
  }

  /** Python's `<` on strings: lexicographic order of code points. */
  predicate LexLess(x: string, y: string) {
    |y| > 0 && (|x| == 0 || x[0] < y[0] || (x[0] == y[0] && LexLess(x[1..], y[1..])))
  }

  /** Comparing two concatenations whose first parts have equal length compares part by part. */
  lemma {:induction false} LexLessConcat(p: string, u: string, q: string, v: string)
    requires |p| == |q|
    ensures LexLess(p + u, q + v) <==> LexLess(p, q) || (p == q && LexLess(u, v))
    decreases |p|
  {
    if |p| > 0 {
      assert (p + u)[1..] == p[1..] + u;
      assert (q + v)[1..] == q[1..] + v;
      LexLessConcat(p[1..], u, q[1..], v);
      if p[0] == q[0] && p[1..] == q[1..] {
        assert p == [p[0]] + p[1..] && q == [q[0]] + q[1..];
      }
    } else {
      assert p + u == u && q + v == v;
    }
  }

  /** One-digit strings compare as their digits do. */
  lemma DigitLess(x: nat, y: nat)
    requires x < 10 && y < 10
    ensures LexLess([DigitChar(x)], [DigitChar(y)]) <==> x < y
  {
    var u, v := [DigitChar(x)], [DigitChar(y)];
    assert u[1..] == [] && v[1..] == [];
  }

  /** Numbers compare by their leading digits first and by their last digit on a tie. */
  lemma DivModOrder(a: nat, b: nat)
    ensures a < b <==> a / 10 < b / 10 || (a / 10 == b / 10 && a % 10 < b % 10)
  {
  }

  /** Padded numbers of equal width compare as strings exactly as they compare as numbers. */
  lemma {:induction false} LexLessPad(a: nat, b: nat, w: nat)
    requires a < Pow10(w) && b < Pow10(w)
    ensures LexLess(Pad(a, w), Pad(b, w)) <==> a < b
  {
    if w == 0 {
      assert a == 0 && b == 0;
    } else {
      var pa, pb := Pad(a / 10, w - 1), Pad(b / 10, w - 1);
      var ca, cb := [DigitChar(a % 10)], [DigitChar(b % 10)];
      assert Pad(a, w) == pa + ca && Pad(b, w) == pb + cb;
      LexLessPad(a / 10, b / 10, w - 1);
      LexLessConcat(pa, ca, pb, cb);
      PadInjective(a / 10, b / 10, w - 1);
      DigitLess(a % 10, b % 10);
      DivModOrder(a, b);
    }
  }

  /** Distinct numbers have distinct padded forms. */
  lemma PadInjective(a: nat, b: nat, w: nat)
    requires a < Pow10(w) && b < Pow10(w)
    ensures Pad(a, w) == Pad(b, w) <==> a == b
  {
    DigitsValuePad(a, w);
    DigitsValuePad(b, w);
  }

  /** A shared separator after equal-length heads defers the comparison to the tails. */
  lemma LexLessSep(p: string, u: string, q: string, v: string, c: char)
    requires |p| == |q|
    ensures LexLess(p + [c] + u, q + [c] + v) <==> LexLess(p, q) || (p == q && LexLess(u, v))
  {
    assert p + [c] + u == p + ([c] + u) && q + [c] + v == q + ([c] + v);
    LexLessConcat(p, [c] + u, q, [c] + v);
    LexLessConcat([c], u, [c], v);
    assert !LexLess([c], [c]);
  }

  /** Milliseconds since midnight order clocks by hour, then minute, second and millisecond. */
  lemma MillisOrder(a: Clock, b: Clock)
    requires ValidClock(a) && ValidClock(b)
    ensures Millis(a) < Millis(b) <==>
      || a.hour < b.hour
      || (a.hour == b.hour && a.minute < b.minute)
      || (a.hour == b.hour && a.minute == b.minute && a.second < b.second)
      || (a.hour == b.hour && a.minute == b.minute && a.second == b.second && a.micro / 1000 < b.micro / 1000)
  {
  }

  /** Two stamps compare field by field: hours, then minutes, seconds, milliseconds. */
  lemma LexLessStampFields(ha: string, ma: string, sa: string, fa: string,
                           hb: string, mb: string, sb: string, fb: string)
    requires |ha| == |hb| && |ma| == |mb| && |sa| == |sb|
    ensures LexLess(ha + ":" + ma + ":" + sa + "." + fa, hb + ":" + mb + ":" + sb + "." + fb) <==>
      || LexLess(ha, hb)
      || (ha == hb && LexLess(ma, mb))
      || (ha == hb && ma == mb && LexLess(sa, sb))
      || (ha == hb && ma == mb && sa == sb && LexLess(fa, fb))
  {
    var ua, ub := sa + "." + fa, sb + "." + fb;
    var ta, tb := ma + ":" + ua, mb + ":" + ub;
    assert ha + ":" + ma + ":" + sa + "." + fa == ha + ":" + ta;
    assert hb + ":" + mb + ":" + sb + "." + fb == hb + ":" + tb;
    LexLessSep(ha, ta, hb, tb, ':');
    LexLessSep(ma, ua, mb, ub, ':');
    LexLessSep(sa, fa, sb, fb, '.');
  }

  /**
   Within one day the written stamps sort as text exactly as the instants they
   record sort in time (to the millisecond), so a log's time column is sortable.
   */
  lemma FormatTimeSortable(a: Clock, b: Clock)
    requires ValidClock(a) && ValidClock(b)
    ensures LexLess(FormatTime(a), FormatTime(b)) <==> Millis(a) < Millis(b)
  {
    LexLessStampFields(Pad(a.hour, 2), Pad(a.minute, 2), Pad(a.second, 2), Pad(a.micro / 1000, 3),
                       Pad(b.hour, 2), Pad(b.minute, 2), Pad(b.second, 2), Pad(b.micro / 1000, 3));
    LexLessPad(a.hour, b.hour, 2);
    LexLessPad(a.minute, b.minute, 2);
    LexLessPad(a.second, b.second, 2);
    LexLessPad(a.micro / 1000, b.micro / 1000, 3);
    PadInjective(a.hour, b.hour, 2);
    PadInjective(a.minute, b.minute, 2);
    PadInjective(a.second, b.second, 2);
    MillisOrder(a, b);
  }
}
