/** Integers as text: how values are rendered, and what `std::stoi` reads back. */
module Decimal {
  import opened Bytes
  import opened Cells
  import opened Schema

  const MINUS: byte := 45
  const PLUS: byte := 43
  const ZERO: byte := 48

  predicate IsDigit(c: byte) { 48 <= c <= 57 }

  /** `isspace` in the default locale. */
  predicate IsSpace(c: byte) { c == 32 || 9 <= c <= 13 }

  function Digits(n: nat): (s: Str)
    ensures |s| >= 1 && forall i | 0 <= i < |s| :: IsDigit(s[i])
  {
    if n < 10 then [ZERO + n] else Digits(n / 10) + [ZERO + n % 10]
  }

  /** `std::to_string`. */
  function Render(n: int): (s: Str) {
    if n < 0 then [MINUS] + Digits(-n) else Digits(n)
  }

  /** The number of digits at the front. */
  function DigitRun(s: Str): (n: nat)
    ensures n <= |s| && (forall i | 0 <= i < n :: IsDigit(s[i])) && (n < |s| ==> !IsDigit(s[n]))
  {
    if s == [] || !IsDigit(s[0]) then 0 else 1 + DigitRun(s[1..])
  }

  function DigitsValue(s: Str): (n: nat)
    requires forall i | 0 <= i < |s| :: IsDigit(s[i])
  {
    if s == [] then 0
    else
      var last := s[|s| - 1];
      assert IsDigit(last);
      10 * DigitsValue(s[..|s| - 1]) + (last - ZERO)
  }

  function SkipSpace(s: Str): (r: Str)
    ensures |r| <= |s| && (r != [] ==> !IsSpace(r[0]))
  {
    if s != [] && IsSpace(s[0]) then SkipSpace(s[1..]) else s
  }

  /** An optional sign and digits, whatever follows; none without a digit. */
  function ParseSigned(s: Str): Option<int> {
    var negative := s != [] && s[0] == MINUS;
    var rest := if s != [] && (s[0] == MINUS || s[0] == PLUS) then s[1..] else s;
    var n := DigitRun(rest);
    if n == 0 then None
    else
      var m: int := DigitsValue(rest[..n]);
      Some(if negative then -m else m)
  }

  /** `std::stoi`: none where it throws, for want of digits or for a number that is no `int32_t`. */
  function Stoi(s: Str): (r: Option<int32>) {
    match ParseSigned(SkipSpace(s))
    case None => None
    case Some(n) => if IsInt32(n) then Some(n) else None
  }

  lemma {:induction false} DigitsValueRoundTrip(n: nat)
    ensures DigitsValue(Digits(n)) == n
  {
    if n >= 10 {
      var s := Digits(n);
      DigitsValueRoundTrip(n / 10);
      assert s[..|s| - 1] == Digits(n / 10);
    } else {
      assert DigitsValue([]) == 0;
      assert [ZERO + n][..0] == [];
    }
  }

  lemma {:induction false} DigitRunWhole(s: Str)
    requires forall i | 0 <= i < |s| :: IsDigit(s[i])
    ensures DigitRun(s) == |s|
  {
  }

  lemma ParseRendered(n: int)
    ensures ParseSigned(Render(n)) == Some(n) && SkipSpace(Render(n)) == Render(n)
  {
    var m: nat := if n < 0 then -n else n;
    var d := Digits(m);
    DigitsValueRoundTrip(m);
    DigitRunWhole(d);
    hide Digits, DigitsValue, DigitRun;
    assert d[..|d|] == d && IsDigit(d[0]);
    assert n < 0 ==> Render(n)[0] == MINUS && Render(n)[1..] == d;
  }

  /** Reading a rendered integer gives it back. */
  lemma RenderRoundTrip(n: int32)
    ensures Stoi(Render(n)) == Some(n)
  {
    ParseRendered(n);
  }

  /** Different integers are rendered differently. */
  lemma RenderInjective(a: int32, b: int32)
    ensures Render(a) == Render(b) <==> a == b
  {
    RenderRoundTrip(a);
    RenderRoundTrip(b);
  }

  /** `std::string`'s `<`: byte by byte, the shorter string first. */
  predicate TextLess(a: Str, b: Str) {
    if b == [] then false
    else if a == [] then true
    else a[0] < b[0] || (a[0] == b[0] && TextLess(a[1..], b[1..]))
  }

  lemma {:induction false} TextLessOrders(a: Str, b: Str)
    ensures !(TextLess(a, b) && TextLess(b, a))
    ensures TextLess(a, b) || TextLess(b, a) || a == b
    ensures TextLess(a, b) ==> a != b
    decreases |a|
  {
    if a == [] || b == [] || a[0] != b[0] {
    } else {
      TextLessOrders(a[1..], b[1..]);
      assert a == [a[0]] + a[1..] && b == [b[0]] + b[1..];
    }
  }

  /** Trailing junk does not change what is read, but makes the text greater. */
  lemma TrailingJunk(s: Str)
    requires Stoi(s).Some?
    ensures Stoi(s + [MINUS]) == Stoi(s) && TextLess(s, s + [MINUS])
  {
    SkipSpaceAppend(s, [MINUS]);
    SignedAppend(SkipSpace(s));
    PrefixLess(s, [MINUS]);
  }

  lemma SignedAppend(t: Str)
    requires ParseSigned(t).Some?
    ensures ParseSigned(t + [MINUS]) == ParseSigned(t)
  {
    hide DigitsValue, DigitRun;
    var rest := if t[0] == MINUS || t[0] == PLUS then t[1..] else t;
    assert (t + [MINUS])[1..] == t[1..] + [MINUS];
    DigitRunAppend(rest, [MINUS]);
    assert (rest + [MINUS])[..DigitRun(rest)] == rest[..DigitRun(rest)];
  }

  lemma {:induction false} SkipSpaceAppend(s: Str, t: Str)
    requires SkipSpace(s) != []
    ensures SkipSpace(s + t) == SkipSpace(s) + t
  {
    if !IsSpace(s[0]) {
    } else {
      assert (s + t)[1..] == s[1..] + t;
      SkipSpaceAppend(s[1..], t);
    }
  }

  lemma {:induction false} DigitRunAppend(s: Str, t: Str)
    requires t == [] || !IsDigit(t[0])
    ensures DigitRun(s + t) == DigitRun(s)
  {
    if s == [] {
      assert s + t == t;
    } else if IsDigit(s[0]) {
      assert (s + t)[1..] == s[1..] + t;
      DigitRunAppend(s[1..], t);
    }
  }

  lemma {:induction false} PrefixLess(s: Str, t: Str)
    requires t != []
    ensures TextLess(s, s + t)
  {
    if s != [] {
      assert (s + t)[1..] == s[1..] + t;
      PrefixLess(s[1..], t);
    } else {
      assert s + t == t;
    }
  }

  const TAB: byte := 9

  /** A leading tab does not change what is read, but makes the text smaller. */
  lemma LeadingTab(s: Str)
    requires Stoi(s).Some?
    ensures Stoi([TAB] + s) == Stoi(s) && TextLess([TAB] + s, s)
  {
    assert ([TAB] + s)[1..] == s;
    TabLess(s);
  }

  lemma {:induction false} TabLess(s: Str)
    requires Stoi(s).Some?
    ensures TextLess([TAB] + s, s)
  {
    var t := [TAB] + s;
    assert t[1..] == s;
    if s[0] != TAB {
    } else {
      TabLess(s[1..]);
      assert s == [TAB] + s[1..];
    }
  }

  // ---------------------------------------------------------------- what rendering, reading and comparing come to

  function Pow10(n: nat): (r: nat)
    ensures r > 0
  {
    if n == 0 then 1 else 10 * Pow10(n - 1)
  }

  /** The digit of weight 10^e. */
  function DigitAt(n: nat, e: nat): (d: nat)
    ensures d < 10
  {
    n / Pow10(e) % 10
  }

  function Magnitude(n: int): nat { if n < 0 then -n else n }

  /** The digits `d`, most significant first, possibly after zeros, say the number `m`. */
  ghost predicate Says(d: Str, m: nat) {
    m < Pow10(|d|) && forall i | 0 <= i < |d| :: d[i] == 48 + DigitAt(m, |d| - 1 - i)
  }

  /** `s` is `n` in decimal: a minus sign if it is negative, then its digits, without padding. */
  ghost predicate IsDecimal(s: Str, n: int) {
    && s != [] && (n < 0 ==> s[0] == 45)
    && var d := if n < 0 then s[1..] else s;
       1 <= |d| && Says(d, Magnitude(n)) && (|d| > 1 ==> Pow10(|d| - 1) <= Magnitude(n))
  }

  lemma Quotient(n: nat, d: nat, q: nat, r: nat)
    requires d > 0 && r < d && n == d * q + r
    ensures n / d == q
  {
    var q' := n / d;
    assert n == d * q' + n % d;
    assert q' < q ==> d * (q' + 1) <= d * q;
    assert q < q' ==> d * (q + 1) <= d * q';
  }

  lemma ShiftedDigit(n: nat, e: nat)
    ensures DigitAt(n, e + 1) == DigitAt(n / 10, e)
  {
    var p := Pow10(e);
    var q, r := n / 10, n % 10;
    var a, b := q / p, q % p;
    assert q == p * a + b;
    assert n == 10 * p * a + (10 * b + r);
    assert 10 * b + r < 10 * p;
    Quotient(n, 10 * p, a, 10 * b + r);
  }

  /** One more digit at the end. */
  lemma SaysMore(d: Str, c: byte, m: nat)
    requires 48 <= c <= 57
    ensures Says(d + [c], m) <==> Says(d, m / 10) && c == 48 + m % 10
  {
    var s := d + [c];
    assert Pow10(0) == 1 && DigitAt(m, 0) == m % 10;
    assert m < Pow10(|s|) <==> m / 10 < Pow10(|d|);
    forall i | 0 <= i < |d|
      ensures s[i] == d[i] && DigitAt(m, |s| - 1 - i) == DigitAt(m / 10, |d| - 1 - i)
    {
      ShiftedDigit(m, |d| - 1 - i);
    }
    hide Pow10, DigitAt;
    assert s[|d|] == c;
    if Says(s, m) {
      forall i | 0 <= i < |d|
        ensures d[i] == 48 + DigitAt(m / 10, |d| - 1 - i)
      {
        assert s[i] == 48 + DigitAt(m, |s| - 1 - i);
      }
      assert s[|d|] == 48 + DigitAt(m, |s| - 1 - |d|);
    }
  }

  lemma {:induction false} DigitsSay(n: nat)
    ensures Says(Digits(n), n) && (|Digits(n)| > 1 ==> Pow10(|Digits(n)| - 1) <= n)
  {
    hide Says, DigitAt;
    if n < 10 {
      assert Digits(n) == [] + [ZERO + n];
      SaysNothing(0);
      SaysMore([], ZERO + n, n);
    } else {
      DigitsSay(n / 10);
      SaysMore(Digits(n / 10), ZERO + n % 10, n);
      assert Pow10(0) == 1;
    }
  }

  lemma SaysNothing(m: nat)
    ensures Says([], m) <==> m == 0
  {
    assert Pow10(0) == 1;
  }

  /** Rendering an integer gives its decimal. */
  lemma RenderIsDecimal(n: int)
    ensures IsDecimal(Render(n), n)
  {
    DigitsSay(Magnitude(n));
    hide Digits, Says;
    assert n < 0 ==> Render(n)[1..] == Digits(-n);
  }

  /** Digits say one number only, the one read from them. */
  lemma {:induction false} DigitsSayValue(d: Str, m: nat)
    requires forall i | 0 <= i < |d| :: IsDigit(d[i])
    ensures Says(d, m) <==> m == DigitsValue(d)
  {
    hide Says;
    if d == [] {
      SaysNothing(m);
    } else {
      var front, c := d[..|d| - 1], d[|d| - 1];
      assert d == front + [c] && IsDigit(c);
      SaysMore(front, c, m);
      DigitsSayValue(front, m / 10);
    }
  }

  /** The digits `r` starts with are `k`, at least one, and say the number `m`. */
  ghost predicate Leads(r: Str, k: nat, m: nat) {
    && 1 <= k <= |r| && (forall i | 0 <= i < k :: 48 <= r[i] <= 57) && (k < |r| ==> !(48 <= r[k] <= 57))
    && Says(r[..k], m)
  }

  /**
   * Reading starts after `w` spaces with an optional sign and goes on as long as there are digits; what follows does
   * not matter.
   */
  ghost predicate ReadsAt(s: Str, w: nat, k: nat, n: int) {
    && w < |s| && (forall i | 0 <= i < w :: s[i] == 32 || 9 <= s[i] <= 13) && !(s[w] == 32 || 9 <= s[w] <= 13)
    && Leads(if s[w] == 45 || s[w] == 43 then s[w + 1..] else s[w..], k, Magnitude(n))
    && (if s[w] == 45 then n <= 0 else n >= 0)
  }

  lemma LeadingRun(r: Str, k: nat, m: nat)
    ensures Leads(r, k, m) <==> 1 <= k == DigitRun(r) && m == DigitsValue(r[..k])
  {
    hide Says, DigitsValue;
    var run := DigitRun(r);
    if 1 <= k <= |r| && forall i | 0 <= i < k :: 48 <= r[i] <= 57 {
      DigitsSayValue(r[..k], m);
    }
    hide DigitRun;
    if Leads(r, k, m) {
      assert k <= run;
    }
  }

  lemma {:induction false} SpacesSkipped(s: Str) returns (w: nat)
    ensures w <= |s| && (forall i | 0 <= i < w :: IsSpace(s[i])) && (w < |s| ==> !IsSpace(s[w]))
    ensures SkipSpace(s) == s[w..]
  {
    if s == [] || !IsSpace(s[0]) {
      w := 0;
    } else {
      w := SpacesSkipped(s[1..]);
      w := w + 1;
    }
  }

  /** A text is read as `n` exactly when it is so written and `n` is a 32-bit integer. */
  lemma StoiExact(s: Str, n: int)
    ensures Stoi(s) == Some(n) <==> IsInt32(n) && exists w: nat, k: nat :: ReadsAt(s, w, k, n)
  {
    hide SkipSpace, ParseSigned, Leads;
    var w := SpacesSkipped(s);
    ParsedReads(s, w, n);
    if exists v: nat, k: nat :: ReadsAt(s, v, k, n) {
      var v: nat, k: nat :| ReadsAt(s, v, k, n);
      assert v <= w;
      assert w <= v;
    }
  }

  lemma ParsedReads(s: Str, w: nat, n: int)
    requires w <= |s| && (forall i | 0 <= i < w :: IsSpace(s[i])) && (w < |s| ==> !IsSpace(s[w]))
    ensures ParseSigned(s[w..]) == Some(n) <==> exists k: nat :: ReadsAt(s, w, k, n)
  {
    hide Leads, DigitsValue, DigitRun;
    if w < |s| {
      var t, signed := s[w..], s[w] == 45 || s[w] == 43;
      var r := if signed then s[w + 1..] else t;
      assert t[0] == s[w] && (signed ==> t[1..] == r);
      forall k: nat
        ensures Leads(r, k, Magnitude(n)) <==> 1 <= k == DigitRun(r) && Magnitude(n) == DigitsValue(r[..k])
      {
        LeadingRun(r, k, Magnitude(n));
      }
      assert ReadsAt(s, w, DigitRun(r), n) <==>
        Leads(r, DigitRun(r), Magnitude(n)) && (if s[w] == 45 then n <= 0 else n >= 0);
    }
  }

  /** `a` comes before `b`: it is a proper prefix of it, or smaller in the first byte in which they differ. */
  ghost predicate Precedes(a: Str, b: Str) {
    exists i :: 0 <= i <= |a| && i < |b| && a[..i] == b[..i] && (i == |a| || a[i] < b[i])
  }

  lemma {:induction false} TextLessPrecedes(a: Str, b: Str)
    ensures TextLess(a, b) <==> Precedes(a, b)
    decreases |a|
  {
    if a == [] || b == [] || a[0] != b[0] {
      FirstDiffers(a, b);
    } else {
      TextLessPrecedes(a[1..], b[1..]);
      OneMoreByte(a, b);
    }
  }

  lemma FirstDiffers(a: Str, b: Str)
    requires a == [] || b == [] || a[0] != b[0]
    ensures Precedes(a, b) <==> b != [] && (a == [] || a[0] < b[0])
  {
    if b != [] && (a == [] || a[0] < b[0]) {
      assert a[..0] == b[..0];
    }
    if Precedes(a, b) {
      var i :| 0 <= i <= |a| && i < |b| && a[..i] == b[..i] && (i == |a| || a[i] < b[i]);
      assert i == 0;
    }
  }

  lemma OneMoreByte(a: Str, b: Str)
    requires a != [] && b != [] && a[0] == b[0]
    ensures Precedes(a, b) <==> Precedes(a[1..], b[1..])
  {
    if Precedes(a, b) {
      var i :| 0 <= i <= |a| && i < |b| && a[..i] == b[..i] && (i == |a| || a[i] < b[i]);
      assert i > 0;
      assert a[1..][..i - 1] == a[..i][1..] && b[1..][..i - 1] == b[..i][1..];
    }
    if Precedes(a[1..], b[1..]) {
      var x, y := a[1..], b[1..];
      var i :| 0 <= i <= |x| && i < |y| && x[..i] == y[..i] && (i == |x| || x[i] < y[i]);
      assert a[..i + 1] == [a[0]] + x[..i] && b[..i + 1] == [b[0]] + y[..i];
    }
  }
}
