/** Expectations with prerequisites: the worklist searches over the prerequisite graph, and what a call
    to a mock function does to it. */
module Prereqs {
  /** An expectation. Everything but the two counters is fixed once it has been set up; `rank` witnesses
      that prerequisites never run in a circle. */
  class Expectation {
    const prerequisites: seq<Expectation>
    const min: nat
    const max: nat
    const retiresOnSaturation: bool
    ghost const rank: nat

    var callCount: nat
    var retired: bool

    constructor (prerequisites: seq<Expectation>, min: nat, max: nat, retiresOnSaturation: bool)
      requires AllAcyclic(prerequisites)
      ensures this.prerequisites == prerequisites && this.min == min && this.max == (if max >= min then max else min)
      ensures this.retiresOnSaturation == retiresOnSaturation && callCount == 0 && !retired && Acyclic(this)
    {
      this.prerequisites := prerequisites;
      this.min, this.max := min, if max >= min then max else min;
      this.retiresOnSaturation := retiresOnSaturation;
      this.rank := Above(prerequisites);
      callCount, retired := 0, false;
    }

    predicate IsSatisfied()
      reads this
    {
      min <= callCount <= max
    }

    predicate IsSaturated()
      reads this
    {
      callCount >= max
    }

    /** A cardinality says how many calls are too few, and beyond which number they are too many. */
    lemma CallsAllowed()
      ensures min <= max ==> (IsSatisfied() && !IsSaturated() <==> min <= callCount < max)
      ensures min <= max ==> (IsSatisfied() && IsSaturated() <==> callCount == max)
      ensures !IsSatisfied() <==> callCount < min || callCount > max
    {
    }

    method Retire(ghost all: set<Expectation>)
      requires this in all
      modifies this`retired
      ensures Retired(all) == old(Retired(all)) + {this}
    {
      retired := true;
    }

    /** Retires every expectation that must come before this one, and no other. */
    method RetireAllPreRequisites(ghost all: set<Expectation>)
      requires this in all && Graph(all) && Closed(Retired(all))
      modifies all`retired
      ensures Retired(all) == old(Retired(all)) + Needs(this)
    {
      ghost var was := Retired(all);
      if retired {
        ClosedBelow(was, this);
        return;
      }
      var expectations := [this];
      Alone(this);
      while expectations != []
        invariant AllAcyclic(expectations) && Members(expectations) <= all && Members(expectations) <= {this} + Needs(this)
        invariant was <= Retired(all) <= was + Needs(this)
        invariant Settled(Retired(all) + {this}, Retired(all), expectations)
        decreases Total(expectations)
      {
        var exp := expectations[|expectations| - 1];
        Popped(expectations);
        NeedsWithin(this, exp);
        NeedsPrerequisites(exp);
        ghost var before, done := expectations, Retired(all);
        expectations := exp.RetireImmediate(expectations[..|expectations| - 1], all);
        MembersSplit(before);
        SettledStep(this, before, expectations, done, Retired(all));
      }
      ClosedBelow(Retired(all), this);
    }

    /** The inner loop: the immediate prerequisites that were still active go on the worklist. */
    method RetireImmediate(expectations: seq<Expectation>, ghost all: set<Expectation>) returns (more: seq<Expectation>)
      requires this in all && Graph(all) && AllAcyclic(expectations)
      modifies all`retired
      ensures AllAcyclic(more) && Total(more) <= Total(expectations) + Total(prerequisites)
      ensures Members(expectations) <= Members(more) <= Members(expectations) + Members(prerequisites)
      ensures Retired(all) == old(Retired(all)) + Members(prerequisites)
      ensures Retired(all) <= old(Retired(all)) + Members(more)
    {
      more := expectations;
      var k := 0;
      ghost var was := Retired(all);
      assert prerequisites[0..] == prerequisites;
      while k < |prerequisites|
        invariant 0 <= k <= |prerequisites|
        invariant AllAcyclic(more) && Total(more) + Total(prerequisites[k..]) <= Total(expectations) + Total(prerequisites)
        invariant Members(expectations) <= Members(more) <= Members(expectations) + Members(prerequisites[..k])
        invariant Retired(all) == was + Members(prerequisites[..k])
        invariant Retired(all) <= was + Members(more)
      {
        var next := prerequisites[k];
        Taken(prerequisites, k);
        MembersStep(prerequisites, k);
        if !next.retired {
          next.Retire(all);
          Pushed(more, next);
          MembersPushed(more, next);
          more := more + [next];
        }
        k := k + 1;
      }
      assert prerequisites[..k] == prerequisites;
    }

    /** True exactly when everything that must come before this expectation is satisfied. */
    method AllPrerequisitesAreSatisfied() returns (r: bool)
      requires Acyclic(this)
      ensures r <==> AllSatisfied(Needs(this))
    {
      var expectations := [this];
      Alone(this);
      while expectations != []
        invariant AllAcyclic(expectations)
        invariant AllSatisfied(Needs(this)) <==> AllSatisfied(Under(expectations))
        decreases Total(expectations)
      {
        ghost var before := expectations;
        var exp := expectations[|expectations| - 1];
        expectations := expectations[..|expectations| - 1];
        Popped(before);
        var k := 0;
        while k < |exp.prerequisites|
          invariant 0 <= k <= |exp.prerequisites|
          invariant AllAcyclic(expectations)
          invariant Total(expectations) + Total(exp.prerequisites[k..]) < Total(before)
          invariant AllSatisfied(Needs(this)) <==> AllSatisfied(Under(expectations) + NeedsOf(exp.prerequisites[k..]))
        {
          var next := exp.prerequisites[k];
          Taken(exp.prerequisites, k);
          if !next.IsSatisfied() {
            assert next in NeedsOf(exp.prerequisites[k..]);
            return false;
          }
          Pushed(expectations, next);
          expectations := expectations + [next];
          k := k + 1;
        }
      }
      return true;
    }

    /** Adds to `result` the unsatisfied expectations this one waits for, not looking past them, nor past
        satisfied ones that have been called. */
    method FindUnsatisfiedPrerequisites(found: set<Expectation>) returns (result: set<Expectation>)
      requires Acyclic(this)
      ensures result == found + Missing(this)
    {
      result := found;
      var expectations := [this];
      Alone(this);
      MissingPopped([this]);
      while expectations != []
        invariant AllAcyclic(expectations)
        invariant Balanced(result, MissingUnder(expectations), {}, found + Missing(this))
        decreases Total(expectations)
      {
        ghost var before := expectations;
        var exp := expectations[|expectations| - 1];
        expectations := expectations[..|expectations| - 1];
        Popped(before);
        MissingPopped(before);
        Regrouped(result, MissingUnder(expectations), Missing(exp), found + Missing(this));
        var k := 0;
        while k < |exp.prerequisites|
          invariant 0 <= k <= |exp.prerequisites|
          invariant AllAcyclic(expectations) && Total(expectations) + Total(exp.prerequisites[k..]) < Total(before)
          invariant Balanced(result, MissingUnder(expectations), MissingOf(exp.prerequisites[k..]), found + Missing(this))
        {
          var next := exp.prerequisites[k];
          Taken(exp.prerequisites, k);
          MissingTaken(exp.prerequisites, k);
          FindStep(expectations, next, result, MissingOf(exp.prerequisites[k + 1..]), found + Missing(this));
          if next.IsSatisfied() {
            if next.callCount == 0 {
              Pushed(expectations, next);
              expectations := expectations + [next];
            }
          } else {
            result := result + {next};
          }
          k := k + 1;
        }
      }
    }

    /** ShouldHandleArguments: an active expectation whose turn has come and whose arguments match. */
    method ShouldHandleArguments(matches: bool) returns (r: bool)
      requires Acyclic(this)
      ensures r <==> !retired && AllSatisfied(Needs(this)) && matches
    {
      if retired {
        return false;
      }
      r := AllPrerequisitesAreSatisfied();
      r := r && matches;
    }

    method IncrementCallCount(ghost all: set<Expectation>)
      requires this in all
      modifies this`callCount
      ensures callCount == old(callCount) + 1 && Retired(all) == old(Retired(all))
      ensures old(Satisfied(all)) - {this} <= Satisfied(all)
      ensures Served(all) <= old(Served(all)) + {this} && (this in Served(all) ==> callCount <= max)
    {
      callCount := callCount + 1;
    }

    /** What a call that this expectation handles does to the expectations. */
    method GetActionForArguments(ghost all: set<Expectation>)
      requires Inv(all) && this in all && !retired && AllSatisfied(Needs(this))
      modifies this`callCount, all`retired
      ensures Inv(all)
      ensures callCount == old(callCount) + 1
      ensures old(callCount) >= max ==> Retired(all) == old(Retired(all))
      ensures old(callCount) < max ==>
        Retired(all) == old(Retired(all)) + Needs(this) + (if retiresOnSaturation && callCount >= max then {this} else {})
    {
      ghost var was, served, sat := Retired(all), Served(all), Satisfied(all);
      GraphBelow(all, this);
      if IsSaturated() {
        IncrementCallCount(all);
        SoundStep(this, served, was, sat, Served(all), Retired(all), Satisfied(all));
        return;
      }
      IncrementCallCount(all);
      RetireAllPreRequisites(all);
      StillClosed(was, this);
      if retiresOnSaturation && IsSaturated() {
        Retire(all);
      }
      SoundStep(this, served, was, sat, Served(all), Retired(all), Satisfied(all));
    }
  }

  // ---------- the graph ----------

  ghost predicate Acyclic(e: Expectation)
    decreases e.rank
  {
    forall p <- e.prerequisites :: p.rank < e.rank && Acyclic(p)
  }

  ghost predicate AllAcyclic(s: seq<Expectation>) {
    forall p <- s :: Acyclic(p)
  }

  /** The least bound on the ranks in `s`. */
  ghost function Above(s: seq<Expectation>): (r: nat)
    ensures forall p <- s :: p.rank < r
  {
    if s == [] then 0
    else
      assert s == [s[0]] + s[1..];
      var r := Above(s[1..]);
      if s[0].rank >= r then s[0].rank + 1 else r
  }

  lemma {:induction false} AboveLeast(s: seq<Expectation>, b: nat)
    requires forall p <- s :: p.rank < b
    ensures Above(s) <= b
  {
    if s != [] {
      AboveLeast(s[1..], b);
    }
  }

  /** The number of paths that lead down from `e`: what a search without a visited set may cost. */
  ghost function Weight(e: Expectation): (n: nat)
    requires Acyclic(e)
    decreases e.rank
  {
    AboveLeast(e.prerequisites, e.rank);
    1 + Total(e.prerequisites)
  }

  ghost function Total(s: seq<Expectation>): (n: nat)
    requires AllAcyclic(s)
    decreases Above(s), |s|
  {
    if s == [] then 0 else Weight(s[0]) + Total(s[1..])
  }

  /** Everything that must come before `e`. */
  ghost function Needs(e: Expectation): set<Expectation>
    requires Acyclic(e)
    decreases e.rank
  {
    AboveLeast(e.prerequisites, e.rank);
    NeedsOf(e.prerequisites)
  }

  ghost function NeedsOf(s: seq<Expectation>): set<Expectation>
    requires AllAcyclic(s)
    decreases Above(s), |s|
  {
    if s == [] then {} else {s[0]} + Needs(s[0]) + NeedsOf(s[1..])
  }

  /** Everything below the members of a worklist. */
  ghost function Under(s: seq<Expectation>): set<Expectation>
    requires AllAcyclic(s)
  {
    if s == [] then {} else Under(s[..|s| - 1]) + Needs(s[|s| - 1])
  }

  lemma {:induction false} TotalSplits(s: seq<Expectation>, t: seq<Expectation>)
    requires AllAcyclic(s) && AllAcyclic(t)
    ensures Total(s + t) == Total(s) + Total(t)
  {
    if s == [] {
      assert s + t == t;
    } else {
      assert (s + t)[1..] == s[1..] + t;
      TotalSplits(s[1..], t);
    }
  }

  lemma Alone(e: Expectation)
    requires Acyclic(e)
    ensures AllAcyclic([e]) && Under([e]) == Needs(e) && Total([e]) == Weight(e)
  {
    assert [e][..0] == [];
    assert [e][1..] == [];
  }

  /** Taking the last member off a worklist leaves room for its prerequisites. */
  lemma Popped(s: seq<Expectation>)
    requires s != [] && AllAcyclic(s)
    ensures var exp := s[|s| - 1]; var rest := s[..|s| - 1];
      && AllAcyclic(rest) && AllAcyclic(exp.prerequisites) && exp.prerequisites[0..] == exp.prerequisites
      && Total(rest) + Total(exp.prerequisites) < Total(s)
      && Under(s) == Under(rest) + NeedsOf(exp.prerequisites)
  {
    var exp := s[|s| - 1];
    var rest := s[..|s| - 1];
    assert s == rest + [exp];
    TotalSplits(rest, [exp]);
    Alone(exp);
  }

  lemma Pushed(s: seq<Expectation>, next: Expectation)
    requires AllAcyclic(s) && Acyclic(next)
    ensures AllAcyclic(s + [next]) && Total(s + [next]) == Total(s) + Weight(next) && Under(s + [next]) == Under(s) + Needs(next)
  {
    Alone(next);
    TotalSplits(s, [next]);
    assert (s + [next])[..|s|] == s;
  }

  lemma Taken(s: seq<Expectation>, k: nat)
    requires k < |s| && AllAcyclic(s)
    ensures Total(s[k..]) == Weight(s[k]) + Total(s[k + 1..])
    ensures NeedsOf(s[k..]) == {s[k]} + Needs(s[k]) + NeedsOf(s[k + 1..])
  {
    assert s[k..][1..] == s[k + 1..];
  }

  lemma {:induction false} NeedsOfHas(s: seq<Expectation>, p: Expectation)
    requires AllAcyclic(s) && p in s
    ensures p in NeedsOf(s) && Needs(p) <= NeedsOf(s)
  {
    if p != s[0] {
      NeedsOfHas(s[1..], p);
    }
  }

  lemma {:induction false} NeedsOfComes(s: seq<Expectation>, x: Expectation) returns (p: Expectation)
    requires AllAcyclic(s) && x in NeedsOf(s)
    ensures p in s && (x == p || x in Needs(p))
  {
    if x == s[0] || x in Needs(s[0]) {
      p := s[0];
    } else {
      p := NeedsOfComes(s[1..], x);
    }
  }

  lemma NeedsPrerequisites(e: Expectation)
    requires Acyclic(e)
    ensures forall p <- e.prerequisites :: p in Needs(e) && Needs(p) <= Needs(e)
  {
    forall p | p in e.prerequisites
      ensures p in Needs(e) && Needs(p) <= Needs(e)
    {
      NeedsOfHas(e.prerequisites, p);
    }
  }

  /** What must come before something that must come first, must come first. */
  lemma {:induction false} NeedsWithin(top: Expectation, e: Expectation)
    requires Acyclic(top) && Acyclic(e) && (e == top || e in Needs(top))
    ensures Needs(e) <= Needs(top)
    decreases top.rank
  {
    if e != top {
      var p := NeedsOfComes(top.prerequisites, e);
      NeedsPrerequisites(top);
      NeedsWithin(p, e);
    }
  }

  // ---------- satisfaction ----------

  ghost predicate AllSatisfied(s: set<Expectation>)
    reads s
  {
    forall x <- s :: x.IsSatisfied()
  }

  ghost function Members(s: seq<Expectation>): set<Expectation> {
    set e | e in s
  }

  lemma MembersStep(s: seq<Expectation>, k: nat)
    requires k < |s|
    ensures Members(s[..k + 1]) == Members(s[..k]) + {s[k]}
  {
    assert s[..k + 1] == s[..k] + [s[k]];
  }

  lemma MembersSplit(s: seq<Expectation>)
    requires s != []
    ensures Members(s) == Members(s[..|s| - 1]) + {s[|s| - 1]}
  {
    assert s == s[..|s| - 1] + [s[|s| - 1]];
  }

  lemma MembersPushed(s: seq<Expectation>, e: Expectation)
    ensures Members(s + [e]) == Members(s) + {e}
  {
  }

  ghost function Retired(all: set<Expectation>): set<Expectation>
    reads all
  {
    set e | e in all && e.retired
  }

  /** A set of expectations with all their prerequisites. */
  ghost predicate Graph(all: set<Expectation>) {
    forall e <- all :: Acyclic(e) && forall p <- e.prerequisites :: p in all
  }

  /** Off the worklist, prerequisites of the expectations in `these` are retired. */
  ghost predicate Settled(these: set<Expectation>, retired: set<Expectation>, worklist: seq<Expectation>) {
    forall e {:trigger Members(e.prerequisites)} :: e in these && e !in worklist ==> Members(e.prerequisites) <= retired
  }

  /** Prerequisites of a retired expectation are retired. */
  ghost predicate Closed(retired: set<Expectation>) {
    Settled(retired, retired, [])
  }

  lemma SettledStep(top: Expectation, before: seq<Expectation>, after: seq<Expectation>, done: set<Expectation>, now: set<Expectation>)
    requires before != [] && Settled(done + {top}, done, before)
    requires Members(before) <= Members(after) + {before[|before| - 1]}
    requires now == done + Members(before[|before| - 1].prerequisites) && now <= done + Members(after)
    ensures Settled(now + {top}, now, after)
  {
    forall e | e in now + {top} && e !in after
      ensures Members(e.prerequisites) <= now
    {
      assert e in before <==> e in Members(before);
      assert e !in Members(after);
    }
  }

  /** In a closed set of retired expectations, everything below a settled expectation is retired. */
  lemma {:induction false} ClosedBelow(retired: set<Expectation>, e: Expectation)
    requires Closed(retired) && Acyclic(e) && (e in retired || Members(e.prerequisites) <= retired)
    ensures Needs(e) <= retired
    decreases e.rank
  {
    forall x | x in Needs(e)
      ensures x in retired
    {
      var p := NeedsOfComes(e.prerequisites, x);
      assert p in Members(e.prerequisites);
      ClosedBelow(retired, p);
    }
  }

  lemma StillClosed(retired: set<Expectation>, e: Expectation)
    requires Closed(retired) && Acyclic(e)
    ensures Closed(retired + Needs(e)) && Closed(retired + Needs(e) + {e})
  {
    forall x | x in retired + Needs(e) + {e}
      ensures Members(x.prerequisites) <= retired + Needs(e)
    {
      if x in Needs(e) {
        NeedsAcyclic(e, x);
        NeedsWithin(e, x);
        NeedsPrerequisites(x);
      } else if x == e {
        NeedsPrerequisites(e);
      }
    }
  }

  lemma {:induction false} NeedsAcyclic(e: Expectation, x: Expectation)
    requires Acyclic(e) && x in Needs(e)
    ensures Acyclic(x) && x.rank < e.rank
    decreases e.rank
  {
    var p := NeedsOfComes(e.prerequisites, x);
    if x != p {
      NeedsAcyclic(p, x);
    }
  }

  // ---------- what is reported as missing ----------

  ghost function Missing(e: Expectation): set<Expectation>
    requires Acyclic(e)
    reads Needs(e)
    decreases e.rank
  {
    AboveLeast(e.prerequisites, e.rank);
    MissingOf(e.prerequisites)
  }

  ghost function MissingOf(s: seq<Expectation>): set<Expectation>
    requires AllAcyclic(s)
    reads NeedsOf(s)
    decreases Above(s), |s|
  {
    if s == [] then {}
    else (if !s[0].IsSatisfied() then {s[0]} else if s[0].callCount == 0 then Missing(s[0]) else {}) + MissingOf(s[1..])
  }

  ghost function MissingUnder(s: seq<Expectation>): set<Expectation>
    requires AllAcyclic(s)
    reads Under(s)
  {
    if s == [] then {} else MissingUnder(s[..|s| - 1]) + Missing(s[|s| - 1])
  }

  ghost function Reported(p: Expectation): set<Expectation>
    requires Acyclic(p)
    reads {p} + Needs(p)
  {
    if !p.IsSatisfied() then {p} else if p.callCount == 0 then Missing(p) else {}
  }

  /** What is found, what the worklist still leads to and what is left of a list make up `whole`. */
  ghost predicate Balanced(found: set<Expectation>, under: set<Expectation>, left: set<Expectation>, whole: set<Expectation>) {
    found + (under + left) == whole
  }

  lemma Regroup(a: set<Expectation>, b: set<Expectation>, r: set<Expectation>, c: set<Expectation>, whole: set<Expectation>)
    requires Balanced(a, b, r + c, whole)
    ensures Balanced(a, b + r, c, whole) && Balanced(a + r, b, c, whole)
    ensures r == {} ==> Balanced(a, b, c, whole)
  {
  }

  lemma Regrouped(a: set<Expectation>, b: set<Expectation>, c: set<Expectation>, whole: set<Expectation>)
    ensures Balanced(a, b + c, {}, whole) <==> Balanced(a, b, c, whole)
  {
  }

  lemma MissingTaken(s: seq<Expectation>, k: nat)
    requires k < |s| && AllAcyclic(s)
    ensures MissingOf(s[k..]) == Reported(s[k]) + MissingOf(s[k + 1..])
  {
    assert s[k..][1..] == s[k + 1..];
  }

  /** The three ways of the inner loop. */
  lemma FindStep(s: seq<Expectation>, next: Expectation, result: set<Expectation>, left: set<Expectation>, whole: set<Expectation>)
    requires AllAcyclic(s) && Acyclic(next) && Balanced(result, MissingUnder(s), Reported(next) + left, whole)
    ensures AllAcyclic(s + [next])
    ensures !next.IsSatisfied() ==> Balanced(result + {next}, MissingUnder(s), left, whole)
    ensures next.IsSatisfied() && next.callCount == 0 ==> Balanced(result, MissingUnder(s + [next]), left, whole)
    ensures next.IsSatisfied() && next.callCount > 0 ==> Balanced(result, MissingUnder(s), left, whole)
  {
    Regroup(result, MissingUnder(s), Reported(next), left, whole);
    var t := s + [next];
    assert t[..|t| - 1] == s && t[|t| - 1] == next;
  }

  lemma MissingPopped(s: seq<Expectation>)
    requires s != [] && AllAcyclic(s)
    ensures var exp := s[|s| - 1]; var rest := s[..|s| - 1];
      MissingUnder(s) == MissingUnder(rest) + Missing(exp) && exp.prerequisites[0..] == exp.prerequisites &&
      Missing(exp) == MissingOf(exp.prerequisites)
  {
  }

  ghost function Satisfied(all: set<Expectation>): set<Expectation>
    reads all
  {
    set e | e in all && e.IsSatisfied()
  }

  /** Satisfied, and not merely because no call is needed. */
  ghost function Served(all: set<Expectation>): set<Expectation>
    reads all
  {
    set e | e in all && e.callCount > 0 && e.IsSatisfied()
  }

  /** Whatever must come before a served expectation is satisfied and can be called no more. */
  ghost predicate Sound(served: set<Expectation>, retired: set<Expectation>, satisfied: set<Expectation>) {
    forall e {:trigger Needs(e)} :: e in served ==> Acyclic(e) && Needs(e) <= retired && Needs(e) <= satisfied
  }

  /** What holds between calls. */
  ghost predicate Inv(all: set<Expectation>)
    reads all
  {
    Graph(all) && Closed(Retired(all)) && Sound(Served(all), Retired(all), Satisfied(all))
  }

  /** A call to an active expectation whose prerequisites are satisfied. */
  lemma SoundStep(e: Expectation, served: set<Expectation>, retired: set<Expectation>, satisfied: set<Expectation>,
                  served': set<Expectation>, retired': set<Expectation>, satisfied': set<Expectation>)
    requires Sound(served, retired, satisfied) && Acyclic(e) && e !in retired
    requires served' <= served + {e} && retired <= retired' && satisfied - {e} <= satisfied'
    requires e in served' ==> Needs(e) <= retired' && Needs(e) <= satisfied
    ensures Sound(served', retired', satisfied')
  {
    NotBeforeItself(e);
  }

  lemma {:induction false} GraphBelow(all: set<Expectation>, e: Expectation)
    requires Graph(all) && e in all
    ensures Needs(e) <= all
    decreases e.rank
  {
    forall x | x in Needs(e)
      ensures x in all
    {
      var p := NeedsOfComes(e.prerequisites, x);
      GraphBelow(all, p);
    }
  }

  lemma NotBeforeItself(e: Expectation)
    requires Acyclic(e)
    ensures e !in Needs(e)
  {
    if e in Needs(e) {
      NeedsAcyclic(e, e);
    }
  }

  lemma {:induction false} MissingOfHas(s: seq<Expectation>, p: Expectation)
    requires AllAcyclic(s) && p in s
    ensures Reported(p) <= MissingOf(s)
  {
    if p != s[0] {
      MissingOfHas(s[1..], p);
    }
  }

  lemma {:induction false} MissingOfComes(s: seq<Expectation>, x: Expectation)
    requires AllAcyclic(s) && x in MissingOf(s)
    ensures x in NeedsOf(s) && !x.IsSatisfied()
    decreases Above(s), |s|
  {
    if x in MissingOf(s[1..]) {
      MissingOfComes(s[1..], x);
    } else if s[0].IsSatisfied() {
      assert Acyclic(s[0]);
      AboveLeast(s[0].prerequisites, s[0].rank);
      MissingOfComes(s[0].prerequisites, x);
    }
  }

  /** Only unsatisfied prerequisites are reported; and between calls, although the search stops at
      satisfied expectations that have been called, nothing is reported exactly when all are satisfied. */
  lemma {:induction false} NothingMissing(all: set<Expectation>, e: Expectation)
    requires Inv(all) && e in all
    ensures forall x <- Missing(e) :: x in Needs(e) && !x.IsSatisfied()
    ensures Missing(e) == {} <==> AllSatisfied(Needs(e))
    decreases e.rank
  {
    forall x | x in Missing(e)
      ensures x in Needs(e) && !x.IsSatisfied()
    {
      MissingOfComes(e.prerequisites, x);
    }
    if Missing(e) == {} {
      forall x | x in Needs(e)
        ensures x.IsSatisfied()
      {
        var p := NeedsOfComes(e.prerequisites, x);
        MissingOfHas(e.prerequisites, p);
        NothingMissing(all, p);
      }
    }
  }
}
