/** Strict total orders, ascending enumerations of sets, and the order of strings by code point. */
module Ordering {

  // ------------------------------------------------------------ strict total orders

  ghost predicate StrictOrder<T(!new)>(less: (T, T) -> bool) {
    && (forall a, b, c | less(a, b) && less(b, c) :: less(a, c))
    && (forall a, b :: less(a, b) || a == b || less(b, a))
    && forall a, b | less(a, b) :: a != b && !less(b, a)
  }

  ghost predicate Ascending<T>(less: (T, T) -> bool, s: seq<T>) {
    forall i, j | 0 <= i < j < |s| :: less(s[i], s[j])
  }

  ghost function Elements<T>(s: seq<T>): set<T> {
    set x | x in s
  }

  lemma NoElements<T>(s: seq<T>)
    ensures s == [] <==> Elements(s) == {}
  {
    if s != [] {
      assert s[0] in Elements(s);
    }
  }

  lemma ElementsAppend<T>(s: seq<T>, x: T)
    ensures Elements(s + [x]) == Elements(s) + {x}
  {
  }

  /** A set has one ascending enumeration. */
  lemma {:induction false} AscendingUnique<T(!new)>(less: (T, T) -> bool, s: seq<T>, t: seq<T>)
    requires StrictOrder(less) && Ascending(less, s) && Ascending(less, t) && Elements(s) == Elements(t)
    ensures s == t
  {
    NoElements(s);
    NoElements(t);
    if s != [] {
      assert s[0] in Elements(t) && t[0] in Elements(s);
      var i :| 0 <= i < |t| && t[i] == s[0];
      var j :| 0 <= j < |s| && s[j] == t[0];
      assert s[0] == t[0];
      TailElements(less, s);
      TailElements(less, t);
      AscendingUnique(less, s[1..], t[1..]);
      assert s == [s[0]] + s[1..] && t == [t[0]] + t[1..];
    }
  }

  lemma TailElements<T(!new)>(less: (T, T) -> bool, s: seq<T>)
    requires StrictOrder(less) && s != [] && Ascending(less, s)
    ensures Elements(s[1..]) == Elements(s) - {s[0]}
  {
  }

  lemma SubsetSize<T>(s: set<T>, t: set<T>)
    requires s <= t
    ensures |s| <= |t|
  {
    assert t == s + (t - s);
  }

  method Least<T(!new, ==)>(less: (T, T) -> bool, all: set<T>) returns (least: T)
    requires StrictOrder(less) && all != {}
    ensures least in all
    ensures forall x | x in all :: x == least || less(least, x)
  {
    least :| least in all;
    var rest := all - {least};
    while rest != {}
      invariant least in all && rest <= all
      invariant forall x | x in all - rest :: x == least || less(least, x)
    {
      var x :| x in rest;
      rest := rest - {x};
      if less(x, least) {
        least := x;
      }
    }
  }

  /** `sorted` over distinct elements. */
  method Sort<T(!new, ==)>(less: (T, T) -> bool, all: set<T>) returns (s: seq<T>)
    requires StrictOrder(less)
    ensures Ascending(less, s) && Elements(s) == all && |s| == |all|
  {
    s := [];
    var rest := all;
    while rest != {}
      invariant rest <= all && Elements(s) == all - rest && |s| + |rest| == |all|
      invariant Ascending(less, s)
      invariant forall x, y | x in s && y in rest :: less(x, y)
    {
      var x := Least(less, rest);
      rest := rest - {x};
      assert Elements(s + [x]) == Elements(s) + {x};
      s := s + [x];
    }
  }

  // ------------------------------------------------------------ strings

  predicate Less(a: string, b: string) {
    b != "" && (a == "" || a[0] < b[0] || (a[0] == b[0] && Less(a[1..], b[1..])))
  }

  lemma {:induction false} LessTransitive(a: string, b: string, c: string)
    requires Less(a, b) && Less(b, c)
    ensures Less(a, c)
  {
    if a != "" && a[0] == b[0] == c[0] {
      LessTransitive(a[1..], b[1..], c[1..]);
    }
  }

  lemma {:induction false} LessTotal(a: string, b: string)
    ensures Less(a, b) || a == b || Less(b, a)
    ensures !(Less(a, b) && Less(b, a)) && !Less(a, a)
  {
    if a != "" && b != "" {
      LessTotal(a[1..], b[1..]);
      assert a == [a[0]] + a[1..] && b == [b[0]] + b[1..];
    }
    if a != "" {
      LessTotal(a[1..], a[1..]);
    }
  }

  lemma LessIsStrictOrder()
    ensures StrictOrder(Less)
  {
    forall a, b ensures Less(a, b) || a == b || Less(b, a) {
      LessTotal(a, b);
    }
    forall a, b | Less(a, b) ensures a != b && !Less(b, a) {
      LessTotal(a, b);
    }
    forall a, b, c | Less(a, b) && Less(b, c) ensures Less(a, c) {
      LessTransitive(a, b, c);
    }
  }
}
