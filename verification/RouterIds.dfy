/** Router IDs in dotted decimal notation, and what comparing them as strings does
    to their numeric order. */
module RouterIds {
  import opened Names
  import opened Sequences

  type RouterId = seq<nat>

  /** Four octets; shorter identifiers are the tails of longer ones. */
  predicate AreOctets(o: RouterId) {
    |o| >= 1 && forall i | 0 <= i < |o| :: o[i] < 256
  }

  function Digit(d: nat): char
    requires d < 10
  {
    '0' + d as char
  }

  function Decimal(n: nat): string
    requires n < 256
  {
    if n < 10 then [Digit(n)]
    else if n < 100 then [Digit(n / 10), Digit(n % 10)]
    else [Digit(n / 100), Digit(n / 10 % 10), Digit(n % 10)]
  }

  function Dotted(o: RouterId): string
    requires AreOctets(o)
  {
    Decimal(o[0]) + if |o| == 1 then "" else "." + Dotted(o[1..])
  }

  /** Numeric order: the first octet that differs decides. */
  predicate Lower(o: RouterId, p: RouterId)
    requires |o| == |p|
  {
    o != [] && (o[0] < p[0] || (o[0] == p[0] && Lower(o[1..], p[1..])))
  }

  /** The decimal notation of m sorts before that of the larger number n: it has
      as many digits, or it does not exceed as many leading digits of n. */
  predicate SortsFirst(m: nat, n: nat) {
    if m < 10 && 10 <= n < 100 then m <= n / 10
    else if m < 10 && 100 <= n then m <= n / 100
    else if m < 100 && 100 <= n then m <= n / 10
    else true
  }

  /** The same for identifiers: SortsFirst holds where they first differ. */
  predicate KeepsOrder(low: RouterId, high: RouterId)
    requires |low| == |high|
  {
    low == [] || if low[0] == high[0] then KeepsOrder(low[1..], high[1..]) else SortsFirst(low[0], high[0])
  }

  lemma LessCons(a: char, x: string, b: char, y: string)
    ensures Less([a] + x, [b] + y) <==> a < b || (a == b && Less(x, y))
  {
    assert ([a] + x)[1..] == x && ([b] + y)[1..] == y;
  }

  lemma {:induction false} LessCommonPrefix(u: string, x: string, y: string)
    ensures Less(u + x, u + y) <==> Less(x, y)
  {
    if u == [] {
      assert u + x == x && u + y == y;
    } else {
      LessCommonPrefix(u[1..], x, y);
      LessCons(u[0], u[1..] + x, u[0], u[1..] + y);
      assert u + x == [u[0]] + (u[1..] + x) && u + y == [u[0]] + (u[1..] + y);
    }
  }

  /** What follows an octet: nothing, or a dot, which sorts before the digits. */
  predicate IsTail(s: string) {
    s == "" || s[0] == '.'
  }

  lemma TailFirst(s: string, d: nat, y: string)
    requires IsTail(s) && d < 10
    ensures Less(s, [Digit(d)] + y) && !Less([Digit(d)] + y, s)
  {
    if s == "" {
    } else {
      LessCons(s[0], s[1..], Digit(d), y);
      LessCons(Digit(d), y, s[0], s[1..]);
      assert s == [s[0]] + s[1..];
    }
  }

  lemma OneDigitFirst(m: nat, s: string, d: nat, y: string)
    requires m < 10 && d < 10 && IsTail(s)
    requires y != "" && exists e: nat :: e < 10 && y[0] == Digit(e)
    ensures Less([Digit(m)] + s, [Digit(d)] + y) <==> m <= d
  {
    var e: nat :| e < 10 && y[0] == Digit(e);
    TailFirst(s, e, y[1..]);
    assert y == [Digit(e)] + y[1..];
    LessCons(Digit(m), s, Digit(d), y);
  }

  lemma TwoDigits(a: nat, b: nat, c: nat, d: nat, x: string, y: string)
    requires a < 10 && b < 10 && c < 10 && d < 10
    ensures Less([Digit(a), Digit(b)] + x, [Digit(c), Digit(d)] + y) <==>
            10 * a + b < 10 * c + d || (a == c && b == d && Less(x, y))
  {
    LessCons(Digit(a), [Digit(b)] + x, Digit(c), [Digit(d)] + y);
    LessCons(Digit(b), x, Digit(d), y);
    assert [Digit(a), Digit(b)] + x == [Digit(a)] + ([Digit(b)] + x);
    assert [Digit(c), Digit(d)] + y == [Digit(c)] + ([Digit(d)] + y);
  }

  /** The smaller of two octets sorts first exactly under that condition. */
  lemma OctetOrder(m: nat, n: nat, s: string, t: string)
    requires m < n < 256 && IsTail(s) && IsTail(t)
    ensures Less(Decimal(m) + s, Decimal(n) + t) <==> SortsFirst(m, n)
  {
    if n < 10 {
      LessCons(Digit(m), s, Digit(n), t);
    } else if m < 10 {
      OctetOrderOne(m, n, s, t);
    } else if n < 100 {
      TwoDigits(m / 10, m % 10, n / 10, n % 10, s, t);
    } else if m < 100 {
      OctetOrderTwo(m, n, s, t);
    } else {
      OctetOrderThree(m, n, s, t);
    }
  }

  lemma OctetOrderOne(m: nat, n: nat, s: string, t: string)
    requires m < 10 <= n < 256 && IsTail(s)
    ensures Less(Decimal(m) + s, Decimal(n) + t) <==> SortsFirst(m, n)
  {
    var first, rest := Decimal(n)[0], Decimal(n)[1..] + t;
    assert Decimal(n) + t == [first] + rest;
    if n < 100 {
      assert rest[0] == Digit(n % 10);
      OneDigitFirst(m, s, n / 10, rest);
    } else {
      assert rest[0] == Digit(n / 10 % 10);
      OneDigitFirst(m, s, n / 100, rest);
    }
  }

  lemma OctetOrderTwo(m: nat, n: nat, s: string, t: string)
    requires 10 <= m < 100 <= n < 256 && IsTail(s)
    ensures Less(Decimal(m) + s, Decimal(n) + t) <==> SortsFirst(m, n)
  {
    var rest := [Digit(n % 10)] + t;
    assert Decimal(n) + t == [Digit(n / 100), Digit(n / 10 % 10)] + rest;
    TailFirst(s, n % 10, t);
    TwoDigits(m / 10, m % 10, n / 100, n / 10 % 10, s, rest);
  }

  lemma DecimalParts(n: nat)
    ensures n == 100 * (n / 100) + 10 * (n / 10 % 10) + n % 10
  {
    assert n == 10 * (n / 10) + n % 10;
    assert n / 10 == 10 * (n / 10 / 10) + n / 10 % 10;
    assert n / 10 / 10 == n / 100;
  }

  lemma ThreeDigits(a: nat, b: nat, c: nat, d: nat, e: nat, f: nat, x: string, y: string)
    requires a < 10 && b < 10 && c < 10 && d < 10 && e < 10 && f < 10
    requires 100 * a + 10 * b + c < 100 * d + 10 * e + f
    ensures Less([Digit(a), Digit(b), Digit(c)] + x, [Digit(d), Digit(e), Digit(f)] + y)
  {
    TwoDigits(a, b, d, e, [Digit(c)] + x, [Digit(f)] + y);
    LessCons(Digit(c), x, Digit(f), y);
    assert [Digit(a), Digit(b), Digit(c)] + x == [Digit(a), Digit(b)] + ([Digit(c)] + x);
    assert [Digit(d), Digit(e), Digit(f)] + y == [Digit(d), Digit(e)] + ([Digit(f)] + y);
  }

  lemma OctetOrderThree(m: nat, n: nat, s: string, t: string)
    requires 100 <= m < n < 256
    ensures Less(Decimal(m) + s, Decimal(n) + t) <==> SortsFirst(m, n)
  {
    DecimalParts(m);
    DecimalParts(n);
    ThreeDigits(m / 100, m / 10 % 10, m % 10, n / 100, n / 10 % 10, n % 10, s, t);
  }

  lemma DecimalInjective(m: nat, n: nat)
    requires m < n < 256 && |Decimal(m)| == |Decimal(n)|
    ensures Decimal(m) != Decimal(n)
  {
    DecimalParts(m);
    DecimalParts(n);
    var a, b := Decimal(m), Decimal(n);
    if m >= 100 {
      assert a[0] != b[0] || a[1] != b[1] || a[2] != b[2];
    } else if m >= 10 {
      assert a[0] != b[0] || a[1] != b[1];
    } else {
      assert a[0] != b[0];
    }
  }

  lemma OctetsDiffer(m: nat, n: nat, s: string, t: string)
    requires m < n < 256 && IsTail(s)
    ensures Decimal(m) + s != Decimal(n) + t
  {
    var a, b, k := Decimal(m) + s, Decimal(n) + t, |Decimal(m)|;
    if k == |Decimal(n)| {
      DecimalInjective(m, n);
      assert a[..k] == Decimal(m) && b[..k] == Decimal(n);
    } else {
      assert b[k] == Decimal(n)[k] && b[k] != '.';
      assert s != "" ==> a[k] == '.';
    }
  }

  /** Of two identifiers the lower one sorts first, as a string, exactly when
      SortsFirst holds for the first octets that differ. */
  lemma {:induction false} StringOrderExact(low: RouterId, high: RouterId)
    requires AreOctets(low) && AreOctets(high) && |low| == |high| && Lower(low, high)
    ensures Less(Dotted(low), Dotted(high)) <==> KeepsOrder(low, high)
    decreases |low|
  {
    var s := if |low| == 1 then "" else "." + Dotted(low[1..]);
    var t := if |high| == 1 then "" else "." + Dotted(high[1..]);
    if low[0] < high[0] {
      OctetOrder(low[0], high[0], s, t);
    } else {
      StringOrderExact(low[1..], high[1..]);
      LessCommonPrefix(Decimal(low[0]), s, t);
      LessCommonPrefix(".", Dotted(low[1..]), Dotted(high[1..]));
    }
  }

  lemma {:induction false} DottedInjective(low: RouterId, high: RouterId)
    requires AreOctets(low) && AreOctets(high) && |low| == |high| && Lower(low, high)
    ensures Dotted(low) != Dotted(high)
    decreases |low|
  {
    if low[0] < high[0] {
      OctetsDiffer(low[0], high[0], if |low| == 1 then "" else "." + Dotted(low[1..]), if |high| == 1 then "" else "." + Dotted(high[1..]));
    } else {
      DottedInjective(low[1..], high[1..]);
      var k := |Decimal(low[0]) + "."|;
      assert Dotted(low)[k..] == Dotted(low[1..]) && Dotted(high)[k..] == Dotted(high[1..]);
    }
  }

  /** Identifiers of the same length as strings. */
  ghost function DottedSet(ids: set<RouterId>): set<string>
    requires forall o | o in ids :: AreOctets(o)
  {
    set o | o in ids :: Dotted(o)
  }

  ghost predicate IsLowest(ids: set<RouterId>, low: RouterId) {
    && low in ids
    && forall o | o in ids :: |o| == |low| && AreOctets(o) && (o != low ==> Lower(low, o))
  }

  /** The first string is the lowest identifier exactly when the lowest one keeps
      its place against every other one. */
  lemma LeastIsLowest(ids: set<RouterId>, low: RouterId)
    requires IsLowest(ids, low)
    ensures DottedSet(ids) != {}
    ensures Least(DottedSet(ids)) == Dotted(low) <==> forall o | o in ids && o != low :: KeepsOrder(low, o)
  {
    var names := DottedSet(ids);
    assert Dotted(low) in names;
    var least := Least(names);
    forall o | o in ids && o != low
      ensures Dotted(o) in names && Dotted(o) != Dotted(low)
      ensures Less(Dotted(low), Dotted(o)) <==> KeepsOrder(low, o)
    {
      StringOrderExact(low, o);
      DottedInjective(low, o);
    }
    if forall o | o in ids && o != low :: KeepsOrder(low, o) {
      var o :| o in ids && Dotted(o) == least;
      if o != low {
        LessTotal(Dotted(low), least);
      }
    }
  }
}
