/** Strings in byte order, as row keys and property names are sorted. */
module ByteOrder {

  predicate Less(a: string, b: string) {
    b != "" && (a == "" || a[0] < b[0] || (a[0] == b[0] && Less(a[1..], b[1..])))
  }

  predicate AtMost(a: string, b: string) {
    a == b || Less(a, b)
  }

  lemma {:induction false} LessIrreflexive(a: string)
    ensures !Less(a, a)
  {
    if a != "" {
      LessIrreflexive(a[1..]);
    }
  }

  lemma {:induction false} LessTransitive(a: string, b: string, c: string)
    requires Less(a, b) && Less(b, c)
    ensures Less(a, c)
  {
    if a != "" && a[0] == b[0] == c[0] {
      LessTransitive(a[1..], b[1..], c[1..]);
    }
  }

  lemma {:induction false} LessTotal(a: string, b: string)
    ensures Less(a, b) || a == b || Less(b, a)
  {
    if a != "" && b != "" && a[0] == b[0] {
      LessTotal(a[1..], b[1..]);
      assert a[1..] == b[1..] ==> a == [a[0]] + a[1..] == b;
    }
  }

  lemma LessAsymmetric(a: string, b: string)
    requires Less(a, b)
    ensures !Less(b, a) && a != b
  {
    LessIrreflexive(a);
    if Less(b, a) {
      LessTransitive(a, b, a);
    }
  }

  lemma {:induction false} PrefixIsLess(a: string, more: string)
    requires more != ""
    ensures Less(a, a + more)
  {
    if a != "" {
      assert (a + more)[1..] == a[1..] + more;
      PrefixIsLess(a[1..], more);
    }
  }

  ghost predicate IsLeast(m: string, names: set<string>) {
    m in names && forall n :: n in names ==> AtMost(m, n)
  }

  lemma {:induction false} LeastExists(names: set<string>) returns (m: string)
    requires names != {}
    ensures IsLeast(m, names)
    decreases |names|
  {
    var x :| x in names;
    var rest := names - {x};
    if rest == {} {
      assert names == {x};
      m := x;
    } else {
      var y := LeastExists(rest);
      LessTotal(x, y);
      if Less(x, y) {
        m := x;
        forall n | n in names
          ensures AtMost(x, n)
        {
          if n != x {
            assert AtMost(y, n);
            if n != y {
              LessTransitive(x, y, n);
            }
          }
        }
      } else {
        m := y;
      }
    }
  }

  ghost function Least(names: set<string>): (m: string)
    requires names != {}
    ensures IsLeast(m, names)
  {
    assert exists m :: IsLeast(m, names) by {
      var m := LeastExists(names);
    }
    var m :| IsLeast(m, names);
    m
  }

  ghost predicate Increasing(keys: seq<string>) {
    forall i, j :: 0 <= i < j < |keys| ==> Less(keys[i], keys[j])
  }

  /** The names in byte order, each once. */
  ghost function Sorted(names: set<string>): (keys: seq<string>)
    ensures Increasing(keys)
    ensures forall n :: n in keys <==> n in names
    ensures |keys| == |names|
    decreases |names|
  {
    if names == {} then []
    else
      var m := Least(names);
      var rest := Sorted(names - {m});
      assert forall n :: n in rest ==> n in names && n != m && Less(m, n);
      assert forall j :: 0 <= j < |rest| ==> rest[j] in rest;
      [m] + rest
  }

  lemma LeastUnique(a: string, b: string, names: set<string>)
    requires IsLeast(a, names) && IsLeast(b, names)
    ensures a == b
  {
    if a != b {
      LessAsymmetric(a, b);
    }
  }

  method LeastOf(names: set<string>) returns (m: string)
    requires names != {}
    ensures m == Least(names)
  {
    m :| m in names;
    var rest := names - {m};
    while rest != {}
      invariant m in names && rest <= names
      invariant forall n :: n in names && n !in rest ==> AtMost(m, n)
    {
      var x :| x in rest;
      LessTotal(m, x);
      if Less(x, m) {
        forall n | n in names && n !in rest
          ensures AtMost(x, n)
        {
          if n != m {
            LessTransitive(x, m, n);
          }
        }
        m := x;
      }
      rest := rest - {x};
    }
    LeastUnique(m, Least(names), names);
  }

  lemma SortedStep(keys: seq<string>, rest: set<string>)
    requires rest != {}
    ensures keys + Sorted(rest) == (keys + [Least(rest)]) + Sorted(rest - {Least(rest)})
  {
  }

  method SortNames(names: set<string>) returns (keys: seq<string>)
    ensures keys == Sorted(names)
  {
    hide Sorted, Increasing, IsLeast;
    keys := [];
    var rest := names;
    ghost var goal := Sorted(names);
    while rest != {}
      invariant goal == keys + Sorted(rest)
    {
      SortedStep(keys, rest);
      var m := LeastOf(rest);
      keys := keys + [m];
      rest := rest - {m};
    }
    assert |Sorted(rest)| == 0;
  }
}
