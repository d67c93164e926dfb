/** Views of a call trace: the calls that change what is on disk, in order. */
module Traces {
  import opened World

  /** The state-changing calls of `t`, in the order they were made. */
  function Mutations(t: seq<Call>): (r: seq<Call>)
    ensures |r| <= |t|
    ensures forall c :: c in r <==> c in t && c.Mutates()
  {
    if t == [] then []
    else (if t[0].Mutates() then [t[0]] else []) + Mutations(t[1..])
  }

  lemma {:induction false} MutationsAppend(a: seq<Call>, b: seq<Call>)
    ensures Mutations(a + b) == Mutations(a) + Mutations(b)
  {
    if a == [] {
      assert a + b == b;
    } else {
      assert (a + b)[0] == a[0];
      assert (a + b)[1..] == a[1..] + b;
      MutationsAppend(a[1..], b);
    }
  }

  /** A trace in which nothing changes what is on disk has no mutations. */
  lemma MutationsOfReads(t: seq<Call>)
    requires forall c | c in t :: !c.Mutates()
    ensures Mutations(t) == []
  {
  }

  /** A trace made only of state-changing calls is its own list of mutations. */
  lemma {:induction false} MutationsOfWrites(t: seq<Call>)
    requires forall c | c in t :: c.Mutates()
    ensures Mutations(t) == t
  {
    if t != [] {
      assert forall c | c in t[1..] :: c in t;
      MutationsOfWrites(t[1..]);
    }
  }

  lemma MutationsOfOne(c: Call)
    ensures Mutations([c]) == if c.Mutates() then [c] else []
  {
  }

  function Last(t: seq<Call>): Call
    requires t != []
  {
    t[|t| - 1]
  }
}
