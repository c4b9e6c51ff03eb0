/** Sequences found at positions of longer ones, and reversed. */
module Sequences {

  /** `b` holds `s` at position `i`. */
  ghost predicate At<T>(b: seq<T>, i: nat, s: seq<T>) {
    i + |s| <= |b| && b[i..i + |s|] == s
  }

  lemma AtParts<T>(b: seq<T>, i: nat, s: seq<T>, t: seq<T>)
    requires At(b, i, s + t)
    ensures At(b, i, s) && At(b, i + |s|, t)
  {
    var w := b[i..i + |s + t|];
    assert w[..|s|] == s && w[|s|..] == t;
    assert b[i..i + |s|] == w[..|s|] && b[i + |s|..i + |s| + |t|] == w[|s|..];
  }

  lemma AtFirst<T>(b: seq<T>, i: nat, x: T)
    requires At(b, i, [x])
    ensures i < |b| && b[i] == x
  {
    assert b[i..i + 1][0] == x;
  }

  lemma ConsAppend<T>(a: seq<T>, b: seq<T>)
    requires a != []
    ensures a + b != [] && (a + b)[0] == a[0] && (a + b)[1..] == a[1..] + b
  {
  }

  function Reverse<T>(s: seq<T>): seq<T> {
    if s == [] then [] else Reverse(s[1..]) + [s[0]]
  }

  lemma {:induction false} ReverseJoin<T>(a: seq<T>, b: seq<T>)
    ensures Reverse(a + b) == Reverse(b) + Reverse(a)
  {
    if a == [] {
      assert a + b == b && Reverse(b) + [] == Reverse(b);
    } else {
      assert (a + b)[0] == a[0] && (a + b)[1..] == a[1..] + b;
      ReverseJoin(a[1..], b);
      assert Reverse(b) + Reverse(a[1..]) + [a[0]] == Reverse(b) + (Reverse(a[1..]) + [a[0]]);
    }
  }

  lemma ReverseFew<T>(x: T)
    ensures Reverse<T>([]) == [] && Reverse([x]) == [x]
  {
    assert [x][1..] == [];
  }
}
