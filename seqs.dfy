/** Sequence helpers shared by the components: flattening and first-match search. */
module Seqs {
  import opened Wrappers

  /** The elements of every inner sequence, in order (`for x in ss: out.extend(x)`). */
  function Concat<T>(ss: seq<seq<T>>): seq<T>
    decreases |ss|
  {
    if ss == [] then [] else Concat(ss[..|ss| - 1]) + ss[|ss| - 1]
  }

  /** The sum of the lengths of the inner sequences. */
  function TotalLength<T>(ss: seq<seq<T>>): nat
    decreases |ss|
  {
    if ss == [] then 0 else |ss[0]| + TotalLength(ss[1..])
  }

  lemma {:induction false} ConcatAppend<T>(ss: seq<seq<T>>, ts: seq<seq<T>>)
    ensures Concat(ss + ts) == Concat(ss) + Concat(ts)
    decreases |ts|
  {
    if ts == [] {
      assert ss + ts == ss;
    } else {
      var ts' := ts[..|ts| - 1];
      assert (ss + ts)[..|ss + ts| - 1] == ss + ts';
      ConcatAppend(ss, ts');
    }
  }

  /** Flattening keeps every element: its length is the sum of the inner lengths. */
  lemma {:induction false} ConcatLength<T>(ss: seq<seq<T>>)
    ensures |Concat(ss)| == TotalLength(ss)
    decreases |ss|
  {
    if ss != [] {
      ConcatLength(ss[1..]);
      ConcatAppend([ss[0]], ss[1..]);
      assert [ss[0]] + ss[1..] == ss;
      assert [ss[0]][..0] == [];
    }
  }

  /**
   * The index of the first element satisfying `p`, as Python's
   * `next((i for i, x in enumerate(s) if p(x)), None)` computes it.
   */
  function FirstWhere<T>(s: seq<T>, p: T -> bool): (r: Option<nat>)
    ensures r.Some? ==> r.value < |s| && p(s[r.value])
    ensures forall j | 0 <= j < (if r.Some? then r.value else |s|) :: !p(s[j])
    decreases |s|
  {
    if s == [] then None
    else if p(s[0]) then Some(0)
    else match FirstWhere(s[1..], p)
      case None => None
      case Some(i) => Some(i + 1)
  }
}
