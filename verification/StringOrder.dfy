/**
 The ordering that std::set<string> and std::map<string, ...> iterate in:
 std::string's operator<, i.e. lexicographic comparison by character code
 where a proper prefix sorts first. An ordered container's begin() is the
 least element under this order.
 */
module StringOrder {

  /** a < b for std::string. */
  predicate Less(a: string, b: string)
    decreases |a|
  {
    if |a| == 0 then |b| > 0
    else if |b| == 0 then false
    else if a[0] != b[0] then a[0] < b[0]
    else Less(a[1..], b[1..])
  }

  lemma {:induction false} LessIrreflexive(a: string)
    ensures !Less(a, a)
    decreases |a|
  {
    if |a| > 0 {
      LessIrreflexive(a[1..]);
    }
  }

  lemma {:induction false} LessAsymmetric(a: string, b: string)
    requires Less(a, b)
    ensures !Less(b, a)
    decreases |a|
  {
    if |a| > 0 && |b| > 0 && a[0] == b[0] {
      LessAsymmetric(a[1..], b[1..]);
    }
  }

  lemma {:induction false} LessTransitive(a: string, b: string, c: string)
    requires Less(a, b) && Less(b, c)
    ensures Less(a, c)
    decreases |a|
  {
    if |a| > 0 && a[0] == b[0] && b[0] == c[0] {
      LessTransitive(a[1..], b[1..], c[1..]);
    }
  }

  /** Any two distinct strings are ordered one way or the other. */
  lemma {:induction false} LessTotal(a: string, b: string)
    ensures a == b || Less(a, b) || Less(b, a)
    decreases |a|
  {
    if |a| > 0 && |b| > 0 && a[0] == b[0] {
      LessTotal(a[1..], b[1..]);
      if a[1..] == b[1..] {
        assert a == [a[0]] + a[1..] && b == [b[0]] + b[1..];
      }
    }
  }

  /** w is what begin() of an ordered container holding s points to. */
  predicate IsLeast(w: string, s: set<string>)
  {
    w in s && forall v :: v in s && v != w ==> Less(w, v)
  }

  /** A non-empty finite set of strings has a least element. */
  lemma {:induction false} LeastExists(s: set<string>)
    requires s != {}
    ensures exists w :: IsLeast(w, s)
    decreases s
  {
    var x :| x in s;
    if s == {x} {
      assert IsLeast(x, s);
    } else {
      LeastExists(s - {x});
      var y :| IsLeast(y, s - {x});
      LessTotal(x, y);
      if Less(x, y) {
        forall v | v in s && v != x
          ensures Less(x, v)
        {
          if v != y {
            LessTransitive(x, y, v);
          }
        }
        assert IsLeast(x, s);
      } else {
        assert IsLeast(y, s);
      }
    }
  }

  /** The least element is unique. */
  lemma LeastUnique(u: string, v: string, s: set<string>)
    requires IsLeast(u, s) && IsLeast(v, s)
    ensures u == v
  {
    if u != v {
      LessAsymmetric(u, v);
    }
  }

  /** The least element of a non-empty set: the value of begin(). */
  ghost function Least(s: set<string>): (w: string)
    requires s != {}
    ensures IsLeast(w, s)
  {
    LeastExists(s);
    var w :| IsLeast(w, s);
    w
  }

  /** Dereferencing begin() of a non-empty std::set<string>. */
  method Begin(s: set<string>) returns (w: string)
    requires s != {}
    ensures w == Least(s)
  {
    LeastExists(s);
    w :| w in s && IsLeast(w, s);
    LeastUnique(w, Least(s), s);
  }
}
