/** Optional values (the source's `None` results) and iteration over sets. */
module Wrappers {

  datatype Option<+T> = None | Some(value: T)

  /** The next element of an iteration over a set, whose order the source leaves open. */
  method Pick<T(==)>(s: set<T>) returns (x: T)
    requires s != {}
    ensures x in s
  {
    assert exists y :: y in s by {
      if forall y :: y !in s {
        assert false;
      }
    }
    x :| x in s;
  }

  predicate IsLeast(x: int, s: set<int>) {
    x in s && forall y | y in s :: x <= y
  }

  /** `min` of a set of numbers. */
  method Least(s: set<int>) returns (least: int)
    requires s != {}
    ensures IsLeast(least, s)
  {
    least := Pick(s);
    var todo := s - {least};
    while todo != {}
      invariant todo <= s && least in s && forall y | y in s :: y in todo || least <= y
      decreases |todo|
    {
      var y := Pick(todo);
      if y < least {
        least := y;
      }
      todo := todo - {y};
    }
  }
}
