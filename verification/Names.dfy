/** Names compared the way sorted() compares Python strings: code point by code
    point, a proper prefix first. */
module Names {
  import opened Sequences

  predicate Less(a: string, b: string) {
    b != [] && (a == [] || a[0] < b[0] || (a[0] == b[0] && Less(a[1..], b[1..])))
  }

  lemma {:induction false} LessTotal(a: string, b: string)
    ensures a == b || Less(a, b) || Less(b, a)
    ensures !(Less(a, b) && Less(b, a)) && !Less(a, a)
  {
    if a != [] && b != [] {
      LessTotal(a[1..], b[1..]);
      LessTotal(a[1..], a[1..]);
      if a[0] == b[0] && a[1..] == b[1..] {
        assert a == [a[0]] + a[1..] == b;
      }
    } else if a != [] {
      LessTotal(a[1..], a[1..]);
    }
  }

  lemma {:induction false} LessTransitive(a: string, b: string, c: string)
    requires Less(a, b) && Less(b, c)
    ensures Less(a, c)
  {
    if a == [] || !(a[0] == b[0] == c[0]) {
    } else {
      LessTransitive(a[1..], b[1..], c[1..]);
    }
  }

  ghost predicate Ascending(s: seq<string>) {
    forall i, j | 0 <= i < j < |s| :: Less(s[i], s[j])
  }

  lemma LeastExists(s: set<string>) returns (least: string)
    requires s != {}
    ensures least in s && forall x | x in s && x != least :: Less(least, x)
  {
    var x :| x in s;
    if s == {x} {
      least := x;
    } else {
      var rest := LeastExists(s - {x});
      LessTotal(x, rest);
      least := if Less(x, rest) then x else rest;
      forall y | y in s && y != least ensures Less(least, y) {
        if least == x && y != rest {
          LessTransitive(x, rest, y);
        }
      }
    }
  }

  function Least(s: set<string>): (least: string)
    requires s != {}
    ensures least in s && forall x | x in s && x != least :: Less(least, x)
  {
    assert exists y :: y in s && forall x | x in s && x != y :: Less(y, x) by {
      var y := LeastExists(s);
    }
    LeastUnique(s);
    var least :| least in s && forall x | x in s && x != least :: Less(least, x);
    least
  }

  lemma LeastUnique(s: set<string>)
    ensures forall a, b | a in s && b in s
              && (forall x | x in s && x != a :: Less(a, x))
              && (forall x | x in s && x != b :: Less(b, x)) :: a == b
  {
    forall a, b | a in s && b in s && a != b
      ensures !(Less(a, b) && Less(b, a))
    {
      LessTotal(a, b);
    }
  }

  lemma ElementsOfCons(least: string, rest: seq<string>, keys: set<string>)
    requires least in keys && Elements(rest) == keys - {least}
    ensures Elements([least] + rest) == keys
    ensures forall x | x in rest :: x in keys && x != least
  {
    assert forall x | x in rest :: x in Elements(rest);
    forall x | x in keys ensures x in Elements([least] + rest) {
      if x != least {
        assert x in keys - {least};
        assert x in rest;
      }
    }
  }

  /** sorted(keys) */
  function Sorted(keys: set<string>): (s: seq<string>)
    ensures Ascending(s)
    ensures Elements(s) == keys
    ensures |s| == |keys|
  {
    if keys == {} then [] else
      var least := Least(keys);
      var rest := Sorted(keys - {least});
      ElementsOfCons(least, rest, keys);
      [least] + rest
  }

  lemma AscendingDistinct(s: seq<string>)
    requires Ascending(s)
    ensures Distinct(s)
  {
    forall i, j | 0 <= i < j < |s| ensures s[i] != s[j] {
      LessTotal(s[i], s[j]);
    }
  }
}
