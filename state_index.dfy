/**
 * The session's offset index as values: a strictly sorted offset list, a table
 * holding one State per listed offset, and the "strictly before" / "strictly
 * after" lookups that may skip sparse states.
 */
module StateIndex {
  import opened Wrappers
  import opened Offsets
  import opened Entities

  /**
   * The index invariant: the list starts at the root sentinel, is strictly
   * sorted, lists exactly the offsets that have states, and the sentinel's
   * state holds a resolved tree (so every later offset has a resolved predecessor).
   */
  ghost predicate IndexValid(offsets: seq<Offset>, states: map<Offset, State>) {
    && |offsets| >= 1
    && offsets[0] == NegInf
    && StrictlySorted(offsets)
    && (forall o :: o in states <==> o in offsets)
    && NegInf in states
    && states[NegInf].tree.Some?
  }

  predicate HasTree(states: map<Offset, State>, o: Offset) {
    o in states && states[o].tree.Some?
  }

  /** A state the lookup may return: any state, or only resolved ones when `withTree` holds. */
  predicate Eligible(states: map<Offset, State>, o: Offset, withTree: bool) {
    withTree ==> HasTree(states, o)
  }

  /** The last listed offset strictly below `o` whose state is eligible. */
  function LastBefore(offsets: seq<Offset>, states: map<Offset, State>, o: Offset, withTree: bool): (r: Option<Offset>)
    ensures r.Some? ==> r.value in offsets && Lt(r.value, o) && Eligible(states, r.value, withTree)
  {
    if offsets == [] then None
    else
      var x := offsets[|offsets| - 1];
      if Lt(x, o) && Eligible(states, x, withTree) then Some(x)
      else LastBefore(offsets[..|offsets| - 1], states, o, withTree)
  }

  /** The first listed offset strictly above `o` whose state is eligible. */
  function FirstAfter(offsets: seq<Offset>, states: map<Offset, State>, o: Offset, withTree: bool): (r: Option<Offset>)
    ensures r.Some? ==> r.value in offsets && Lt(o, r.value) && Eligible(states, r.value, withTree)
  {
    if offsets == [] then None
    else if Lt(o, offsets[0]) && Eligible(states, offsets[0], withTree) then Some(offsets[0])
    else FirstAfter(offsets[1..], states, o, withTree)
  }

  /**
   * On a sorted list, LastBefore is the greatest eligible offset below `o`:
   * nothing eligible lies strictly between it and `o`, and None means nothing
   * eligible lies below `o` at all.
   */
  lemma {:induction false} LastBeforeIsGreatest(offsets: seq<Offset>, states: map<Offset, State>, o: Offset, withTree: bool)
    requires StrictlySorted(offsets)
    ensures var r := LastBefore(offsets, states, o, withTree);
      && (r.Some? ==> forall y :: y in offsets && Lt(r.value, y) && Lt(y, o) ==> !Eligible(states, y, withTree))
      && (r.None? ==> forall y :: y in offsets && Lt(y, o) ==> !Eligible(states, y, withTree))
  {
    if offsets != [] {
      var n := |offsets| - 1;
      var init := offsets[..n];
      assert offsets == init + [offsets[n]];
      LastBeforeIsGreatest(init, states, o, withTree);
      var r := LastBefore(offsets, states, o, withTree);
      if r.Some? && r.value != offsets[n] {
        assert r == LastBefore(init, states, o, withTree);
        assert r.value in init;
        var k :| 0 <= k < n && init[k] == r.value;
        assert Lt(r.value, offsets[n]);
      }
    }
  }

  /** On a sorted list, FirstAfter is the least eligible offset above `o`, and None means there is none. */
  lemma {:induction false} FirstAfterIsLeast(offsets: seq<Offset>, states: map<Offset, State>, o: Offset, withTree: bool)
    requires StrictlySorted(offsets)
    ensures var r := FirstAfter(offsets, states, o, withTree);
      && (r.Some? ==> forall y :: y in offsets && Lt(o, y) && Lt(y, r.value) ==> !Eligible(states, y, withTree))
      && (r.None? ==> forall y :: y in offsets && Lt(o, y) ==> !Eligible(states, y, withTree))
  {
    if offsets != [] {
      var rest := offsets[1..];
      assert offsets == [offsets[0]] + rest;
      FirstAfterIsLeast(rest, states, o, withTree);
      var r := FirstAfter(offsets, states, o, withTree);
      if r.Some? && r.value != offsets[0] {
        assert r.value in rest;
        var k :| 0 <= k < |rest| && rest[k] == r.value;
        assert Lt(offsets[0], r.value);
      }
    }
  }

  /** LastBefore only looks at the states below `o`. */
  lemma {:induction false} LastBeforeFrame(offsets: seq<Offset>, s1: map<Offset, State>, s2: map<Offset, State>, o: Offset, withTree: bool)
    requires forall y :: y in offsets && Lt(y, o) ==> (Eligible(s1, y, withTree) <==> Eligible(s2, y, withTree))
    ensures LastBefore(offsets, s1, o, withTree) == LastBefore(offsets, s2, o, withTree)
  {
    if offsets != [] {
      var n := |offsets| - 1;
      assert forall y :: y in offsets[..n] ==> y in offsets;
      LastBeforeFrame(offsets[..n], s1, s2, o, withTree);
    }
  }

  /** FirstAfter only looks at the states above `o`. */
  lemma {:induction false} FirstAfterFrame(offsets: seq<Offset>, s1: map<Offset, State>, s2: map<Offset, State>, o: Offset, withTree: bool)
    requires forall y :: y in offsets && Lt(o, y) ==> (Eligible(s1, y, withTree) <==> Eligible(s2, y, withTree))
    ensures FirstAfter(offsets, s1, o, withTree) == FirstAfter(offsets, s2, o, withTree)
  {
    if offsets != [] {
      assert forall y :: y in offsets[1..] ==> y in offsets;
      FirstAfterFrame(offsets[1..], s1, s2, o, withTree);
    }
  }

  /** In a valid index every offset above the sentinel has a resolved predecessor. */
  lemma ResolvedPredecessorExists(offsets: seq<Offset>, states: map<Offset, State>, o: Offset)
    requires IndexValid(offsets, states) && o != NegInf
    ensures LastBefore(offsets, states, o, true).Some?
  {
    LastBeforeIsGreatest(offsets, states, o, true);
    assert offsets[0] in offsets;
  }

  /** The tree a state resolves to: its transitions replayed on its nearest resolved predecessor's tree. */
  function ReplayAt(offsets: seq<Offset>, states: map<Offset, State>, o: Offset,
                    replay: (seq<Transition>, Tree, seq<Node>) -> Tree): Tree
    requires IndexValid(offsets, states) && o in states && o != NegInf
  {
    ResolvedPredecessorExists(offsets, states, o);
    var p := LastBefore(offsets, states, o, true).value;
    replay(states[o].transitions, states[p].tree.value, states[o].stopNodes)
  }
}
