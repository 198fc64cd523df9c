/** First-present-wins choice among optional values: the "race" both
    version-selection routines use to prefer an explicit choice over a
    computed default. */
module Optionals {
  import opened Wrappers

  /** The position of the first present value, or the length when none is. */
  function FirstPresent<T>(xs: seq<Option<T>>): (k: nat)
    ensures k <= |xs|
    ensures forall i :: 0 <= i < k ==> xs[i].None?
    ensures k < |xs| ==> xs[k].Some?
  {
    if |xs| == 0 then 0
    else if xs[0].Some? then 0
    else 1 + FirstPresent(xs[1..])
  }

  /** `race(optionals...)`: the first present optional, unchanged; empty
      exactly when every argument is. */
  function Race<T>(xs: seq<Option<T>>): (r: Option<T>)
    ensures r.None? <==> forall i :: 0 <= i < |xs| ==> xs[i].None?
    ensures r.Some? ==> exists i :: 0 <= i < |xs| && xs[i] == r && forall j :: 0 <= j < i ==> xs[j].None?
  {
    if |xs| == 0 then None
    else if xs[0].Some? then xs[0]
    else
      var r := Race(xs[1..]);
      assert forall i :: 1 <= i < |xs| ==> xs[i] == xs[1..][i - 1];
      assert r.Some? ==> exists i :: 1 <= i < |xs| && xs[i] == r && forall j :: 0 <= j < i ==> xs[j].None?;
      r
  }

  /** The race is decided by the first present value. */
  lemma RaceIsFirstPresent<T>(xs: seq<Option<T>>)
    ensures Race(xs) == if FirstPresent(xs) < |xs| then xs[FirstPresent(xs)] else None
  {
    var k := FirstPresent(xs);
    if Race(xs).Some? {
      var i :| 0 <= i < |xs| && xs[i] == Race(xs) && forall j :: 0 <= j < i ==> xs[j].None?;
      assert i == k;
    }
  }

  /** With two arguments, as both version selections use it: the first when
      present, else the second. */
  lemma RaceOfTwo<T>(a: Option<T>, b: Option<T>)
    ensures Race([a, b]) == if a.Some? then a else b
  {
    assert [a, b][1..] == [b];
    assert [b][1..] == [];
  }

  /** What a list of suppliers would give if all were called. */
  function Supplied<T>(suppliers: seq<() -> Option<T>>): (xs: seq<Option<T>>)
    ensures |xs| == |suppliers| && forall i :: 0 <= i < |suppliers| ==> xs[i] == suppliers[i]()
  {
    seq(|suppliers|, i requires 0 <= i < |suppliers| => suppliers[i]())
  }

  /** `race(suppliers...)`: the suppliers are called in order and none after
      the first that gives a present value; `evaluated` counts the calls. The
      answer is the race of all the values the suppliers would give. */
  method RaceSuppliers<T>(suppliers: seq<() -> Option<T>>) returns (r: Option<T>, evaluated: nat)
    ensures r == Race(Supplied(suppliers))
    ensures r.Some? ==> evaluated == FirstPresent(Supplied(suppliers)) + 1
    ensures r.None? ==> evaluated == |suppliers|
  {
    ghost var xs := Supplied(suppliers);
    RaceIsFirstPresent(xs);
    evaluated := 0;
    while evaluated < |suppliers|
      invariant evaluated <= |suppliers|
      invariant forall i :: 0 <= i < evaluated ==> xs[i].None?
    {
      var maybe := suppliers[evaluated]();
      evaluated := evaluated + 1;
      if maybe.Some? {
        assert FirstPresent(xs) == evaluated - 1 by {
          assert xs[evaluated - 1].Some?;
        }
        return maybe, evaluated;
      }
    }
    assert FirstPresent(xs) == |xs|;
    r := None;
  }
}
