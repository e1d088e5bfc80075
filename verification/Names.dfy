// Item names and the order in which the program visits ordered containers.
module Names {

  // The order of std::string keys in std::map and std::set.
  predicate Less(a: string, b: string)
  {
    b != "" && (a == "" || (if a[0] == b[0] then Less(a[1..], b[1..]) else a[0] < b[0]))
  }

  lemma SharedFirst(a: string, b: string)
    ensures forall n: nat :: 0 < n <= |a| && n <= |b| && a[..n] == b[..n] ==> a[0] == b[0]
  {
    forall n: nat | 0 < n <= |a| && n <= |b| && a[..n] == b[..n]
      ensures a[0] == b[0]
    {
      assert a[..n][0] == a[0] && b[..n][0] == b[0];
    }
  }

  // It is lexicographic: behind what they share, a ends or has the smaller character.
  lemma {:induction false} LessExact(a: string, b: string)
    ensures Less(a, b) <==>
            exists n: nat :: n <= |a| && n < |b| && a[..n] == b[..n] && (n == |a| || a[n] < b[n])
  {
    if a != "" && b != "" && a[0] == b[0] {
      var c, d := a[1..], b[1..];
      LessExact(c, d);
      if Less(a, b) {
        var n: nat :| n <= |c| && n < |d| && c[..n] == d[..n] && (n == |c| || c[n] < d[n]);
        assert a[..n + 1] == [a[0]] + c[..n] && b[..n + 1] == [b[0]] + d[..n];
      }
      if n: nat :| n <= |a| && n < |b| && a[..n] == b[..n] && (n == |a| || a[n] < b[n]) {
        assert n > 0;
        assert c[..n - 1] == a[..n][1..] && d[..n - 1] == b[..n][1..];
        assert n - 1 <= |c| && (n - 1 == |c| || c[n - 1] < d[n - 1]);
      }
    } else if b != "" {
      assert a[..0] == b[..0];
      SharedFirst(a, b);
    }
  }

  lemma {:induction false} LessTotal(a: string, b: string)
    ensures Less(a, b) || Less(b, a) || a == b
  {
    if a != "" && b != "" && a[0] == b[0] {
      LessTotal(a[1..], b[1..]);
      assert a == [a[0]] + a[1..] && b == [b[0]] + b[1..];
    }
  }

  lemma {:induction false} LessIsStrict(a: string, b: string)
    requires Less(a, b)
    ensures !Less(b, a)
    ensures a != b
  {
    if a != "" && a[0] == b[0] {
      LessIsStrict(a[1..], b[1..]);
    }
  }

  lemma {:induction false} LessTransitive(a: string, b: string, c: string)
    requires Less(a, b) && Less(b, c)
    ensures Less(a, c)
  {
    if a != "" && a[0] == b[0] && b[0] == c[0] {
      LessTransitive(a[1..], b[1..], c[1..]);
    }
  }

  ghost predicate IsLeast(x: string, s: set<string>)
  {
    x in s && forall y :: y in s ==> y == x || Less(x, y)
  }

  lemma {:induction false} LeastExists(s: set<string>)
    requires s != {}
    ensures exists x :: IsLeast(x, s)
  {
    var z :| z in s;
    if s == {z} {
      assert IsLeast(z, s);
    } else {
      LeastExists(s - {z});
      var x :| IsLeast(x, s - {z});
      LessTotal(x, z);
      if Less(x, z) {
        assert IsLeast(x, s);
      } else {
        forall y | y in s && y != z
          ensures Less(z, y)
        {
          if y != x {
            LessTransitive(z, x, y);
          }
        }
        assert IsLeast(z, s);
      }
    }
  }

  lemma LeastUnique()
    ensures forall s, x, y :: IsLeast(x, s) && IsLeast(y, s) ==> x == y
  {
    forall s, x, y | IsLeast(x, s) && IsLeast(y, s)
      ensures x == y
    {
      if x != y {
        LessIsStrict(x, y);
      }
    }
  }

  ghost function Least(s: set<string>): (x: string)
    requires s != {}
    ensures x in s
  {
    LeastExists(s);
    var x :| IsLeast(x, s);
    x
  }

  lemma LeastIsLeast(s: set<string>)
    requires s != {}
    ensures IsLeast(Least(s), s)
  {
    LeastExists(s);
  }

  ghost predicate Increasing(keys: seq<string>)
  {
    forall i, j :: 0 <= i < j < |keys| ==> Less(keys[i], keys[j])
  }

  ghost predicate Distinct<T>(s: seq<T>)
  {
    forall i, j :: 0 <= i < j < |s| ==> s[i] != s[j]
  }

  lemma {:induction false} SubsetSize<T>(a: set<T>, b: set<T>)
    requires a <= b
    ensures |a| <= |b|
  {
    if a != {} {
      var x :| x in a;
      SubsetSize(a - {x}, b - {x});
    }
  }

  // The keys of an ordered container, in iteration order.
  ghost function SortedKeys(s: set<string>): (keys: seq<string>)
    ensures forall x :: x in keys <==> x in s
  {
    if s == {} then []
    else
      var x := Least(s);
      [x] + SortedKeys(s - {x})
  }

  lemma {:induction false} SortedKeysIncreasing(s: set<string>)
    ensures Increasing(SortedKeys(s))
  {
    if s != {} {
      var x := Least(s);
      LeastIsLeast(s);
      SortedKeysIncreasing(s - {x});
      var rest := SortedKeys(s - {x});
      forall j | 0 <= j < |rest|
        ensures Less(x, rest[j])
      {
        assert rest[j] in rest;
      }
    }
  }

  lemma SortedKeysDistinct(s: set<string>)
    ensures Distinct(SortedKeys(s))
  {
    var keys := SortedKeys(s);
    SortedKeysIncreasing(s);
    forall i, j | 0 <= i < j < |keys|
      ensures keys[i] != keys[j]
    {
      LessIsStrict(keys[i], keys[j]);
    }
  }

  lemma SortedKeysStep(s: set<string>, x: string)
    requires IsLeast(x, s)
    ensures SortedKeys(s) == [x] + SortedKeys(s - {x})
  {
    LeastIsLeast(s);
    LeastUnique();
  }

  // Iterating an ordered container: the smallest remaining key comes next.
  method KeysInOrder(s: set<string>) returns (keys: seq<string>)
    ensures keys == SortedKeys(s)
  {
    keys := [];
    var rest := s;
    while rest != {}
      invariant keys + SortedKeys(rest) == SortedKeys(s)
      decreases rest
    {
      var x := FindLeast(rest);
      SortedKeysStep(rest, x);
      assert keys + SortedKeys(rest) == (keys + [x]) + SortedKeys(rest - {x});
      keys, rest := keys + [x], rest - {x};
    }
  }

  method FindLeast(s: set<string>) returns (x: string)
    requires s != {}
    ensures IsLeast(x, s)
  {
    x :| x in s;
    var rest := s - {x};
    while rest != {}
      invariant rest <= s
      invariant IsLeast(x, s - rest)
      decreases rest
    {
      var y :| y in rest;
      LessTotal(x, y);
      if Less(y, x) {
        forall z | z in s - rest && z != x
          ensures Less(y, z)
        {
          LessTransitive(y, x, z);
        }
        x := y;
      }
      rest := rest - {y};
    }
    assert s - rest == s;
  }
}
