/** Optional values and the moduli of the machine's unsigned integers. */
module Basics {

  datatype Option<+T> = None | Some(value: T)

  const TWO_32: nat := 0x1_0000_0000
  const TWO_64: nat := 0x1_0000_0000_0000_0000

  /** What comes before the rest, if there is a rest. */
  function Prepend<T>(s: seq<T>, rest: Option<seq<T>>): Option<seq<T>> {
    match rest case None => None case Some(t) => Some(s + t)
  }

  lemma {:induction false} PrependNothing<T>(rest: Option<seq<T>>)
    ensures Prepend([], rest) == rest
  {
    if rest.Some? {
      assert [] + rest.value == rest.value;
    }
  }

  lemma {:induction false} PrependTwice<T>(a: seq<T>, b: seq<T>, rest: Option<seq<T>>)
    ensures Prepend(a, Prepend(b, rest)) == Prepend(a + b, rest)
  {
    if rest.Some? {
      assert a + (b + rest.value) == a + b + rest.value;
    }
  }

  /** One element less to go through. */
  lemma {:induction false} OneDone<T>(all: set<T>, left: set<T>, x: T)
    requires left <= all && x in left
    ensures all - (left - {x}) == all - left + {x} && left - {x} <= all
  {
  }

  lemma {:induction false} NoneOrAllDone<T>(all: set<T>)
    ensures all - all == {} && all - {} == all
  {
  }
}
