/** Discovery of archive inputs under a budget (zip_discovery.go): whatever way a walk or a glob ends,
    the budget holds what it held before and what the callback reserved, and nothing of its own. */
module ZipDiscovery {
  import opened Common
  import opened ZipBudget

  const READ_WORKSPACE := 128 * 1024

  // A call of the callback: the path, and what the budget held beside what the callback keeps.
  datatype Visited = Visited(path: string, held: int)

  // What the callback answers to its first, second, ... call.
  type Answers = nat -> Outcome

  /** What discovery meets: a context that may be cancelled for good, filesystem calls that may fail, a
      callback that may reserve memory, cancel and answer anything. Only the methods here record what
      happened. */
  class World {
    const answers: Answers
    var cancelled: bool

    // The calls of the callback, in order, and what it reserved and kept.
    var visits: seq<Visited>
    var kept: nat
    // Filesystem calls that failed; charges refused to discovery; looks at the context that found it cancelled.
    ghost var troubles: nat
    ghost var refusals: nat
    ghost var noticed: nat

    constructor (answers: Answers)
      ensures this.answers == answers && !cancelled && visits == [] && kept == 0 && troubles == 0 && refusals == 0 && noticed == 0
    {
      this.answers := answers;
      cancelled, visits, kept, troubles, refusals, noticed := false, [], 0, 0, 0, 0;
    }

    // ctx.Err() == nil
    method Alive() returns (ok: bool)
      modifies this`cancelled, this`noticed
      ensures ok == !cancelled && (old(cancelled) ==> cancelled) && noticed == old(noticed) + if ok then 0 else 1
    {
      var now: bool := *;
      cancelled := cancelled || now;
      ok := !cancelled;
      if !ok {
        noticed := noticed + 1;
      }
    }

    // A filesystem call.
    method Look() returns (ok: bool)
      modifies this`troubles
      ensures troubles == old(troubles) + if ok then 0 else 1
    {
      ok := *;
      if !ok {
        troubles := troubles + 1;
      }
    }

    // zipDiscoveryBytes and the reservation.
    method Charge(budget: Budget, base: nat, multiplier: nat, length: nat) returns (cost: Option<nat>)
      requires budget.Valid()
      modifies budget, this`refusals
      ensures budget.Valid() && cost in {None, Cost(base, multiplier, length)}
      ensures budget.current == old(budget.current) + if cost.Some? then cost.value else 0
      ensures cost.Some? <==> old(budget.current) + base + multiplier * length <= budget.limit
      ensures refusals == old(refusals) + if cost.Some? then 0 else 1
    {
      cost := Cost(base, multiplier, length);
      if cost.Some? {
        var admitted := budget.Reserve(cost.value);
        if !admitted {
          cost := None;
        }
      }
      if cost.None? {
        refusals := refusals + 1;
      }
    }

    // The callback, on one path.
    method Visit(budget: Budget, path: string) returns (e: Outcome)
      requires budget.Valid()
      modifies budget, this`visits, this`kept, this`cancelled
      ensures budget.Valid() && budget.current - kept == old(budget.current - kept) && kept >= old(kept)
      ensures visits == old(visits) + [Visited(path, old(budget.current - kept))]
      ensures e == answers(|old(visits)|) && (old(cancelled) ==> cancelled)
    {
      e := answers(|visits|);
      visits := visits + [Visited(path, budget.current - kept)];
      var wanted: int := *;
      if wanted > 0 {
        var admitted := budget.Reserve(wanted);
        if admitted {
          kept := kept + wanted;
        }
      }
      var now: bool := *;
      cancelled := cancelled || now;
    }
  }

  // ----- one directory -----

  function NameCost(name: string): nat
  {
    96 + 4 * |name|
  }

  function NamesCost(names: seq<string>): nat
  {
    if names == [] then 0 else NamesCost(names[..|names| - 1]) + NameCost(names[|names| - 1])
  }

  lemma NoNames()
    ensures NamesCost([]) == 0
  {
  }

  lemma NameAdded(names: seq<string>, name: string)
    ensures NamesCost(names + [name]) == NamesCost(names) + NameCost(name)
  {
    assert (names + [name])[..|names|] == names;
  }

  lemma {:induction false} CostGrows(names: seq<string>, k: nat)
    requires k < |names|
    ensures NamesCost(names[..k]) + NameCost(names[k]) <= NamesCost(names)
    decreases |names| - k
  {
    assert names[..k + 1] == names[..k] + [names[k]];
    NameAdded(names[..k], names[k]);
    if k + 1 == |names| {
      assert names[..k + 1] == names;
    } else {
      CostGrows(names, k + 1);
    }
  }

  // Why discovery stopped, if it did.
  twostate predicate Explained(w: World, e: Outcome)
    reads w
  {
    && (e == Cancelled ==> w.cancelled && w.noticed > old(w.noticed))
    && (e == Limit ==> w.refusals > old(w.refusals))
    && (e == Failed ==> w.troubles > old(w.troubles))
  }

  // readZIPDirectoryNames: all lists what the directory holds; reading it may fail anywhere. What is
  // charged on return is what the names cost, and nothing after a failure.
  method ReadNames(w: World, budget: Budget, all: seq<string>) returns (names: seq<string>, charged: nat, e: Outcome)
    requires budget.Valid()
    modifies budget, w`cancelled, w`noticed, w`troubles, w`refusals
    ensures budget.Valid() && budget.current == old(budget.current) + charged
    ensures if e == Done then names == all && charged == NamesCost(all) else names == [] && charged == 0
    ensures e in {Done, Cancelled, Limit, Failed} && Explained(w, e) && (e == Done ==> !w.cancelled) && (e != Cancelled ==> w.noticed == old(w.noticed))
    ensures old(w.troubles) <= w.troubles && old(w.refusals) <= w.refusals && (old(w.cancelled) ==> w.cancelled) && old(w.noticed) <= w.noticed
    ensures e != Limit ==> w.refusals == old(w.refusals)
    ensures e == Done ==> w.troubles == old(w.troubles)
    ensures e == Done ==> old(budget.current) + 128 * 1024 + NamesCost(all) <= budget.limit
    ensures e == Limit ==> old(budget.current) + 128 * 1024 + NamesCost(all) > budget.limit
  {
    names, charged, e := [], 0, Done;
    var alive := w.Alive();
    if !alive {
      return [], 0, Cancelled;
    }
    var workspace := w.Charge(budget, READ_WORKSPACE, 0, 0);
    if workspace.None? {
      return [], 0, Limit;
    }
    names, charged, e := CollectNames(w, budget, all);
    if e != Done {
      var gone := budget.Release(charged);
      names, charged := [], 0;
    }
    var freed := budget.Release(READ_WORKSPACE);
  }

  method ChargeName(w: World, budget: Budget, name: string) returns (cost: Option<nat>)
    requires budget.Valid()
    modifies budget, w`refusals
    ensures budget.Valid() && cost == if old(budget.current) + NameCost(name) <= budget.limit then Some(NameCost(name)) else None
    ensures budget.current == old(budget.current) + if cost.Some? then cost.value else 0
    ensures w.refusals == old(w.refusals) + if cost.Some? then 0 else 1
  {
    cost := w.Charge(budget, 96, 4, |name|);
  }

  // Opens, reads one name at a time, looks at the context once more and closes; charged counts what was
  // admitted so far.
  method CollectNames(w: World, budget: Budget, all: seq<string>) returns (names: seq<string>, charged: nat, e: Outcome)
    requires budget.Valid()
    modifies budget, w`cancelled, w`noticed, w`troubles, w`refusals
    ensures budget.Valid() && budget.current == old(budget.current) + charged
    ensures e == Done ==> names == all && charged == NamesCost(all)
    ensures e in {Done, Cancelled, Limit, Failed} && Explained(w, e) && (e == Done ==> !w.cancelled) && (e != Cancelled ==> w.noticed == old(w.noticed))
    ensures old(w.troubles) <= w.troubles && old(w.refusals) <= w.refusals && (old(w.cancelled) ==> w.cancelled) && old(w.noticed) <= w.noticed
    ensures e != Limit ==> w.refusals == old(w.refusals)
    ensures e == Done ==> w.troubles == old(w.troubles)
    ensures e == Limit ==> old(budget.current) + NamesCost(all) > budget.limit
  {
    var found := w.Look();
    if !found {
      return [], 0, Failed;
    }
    hide NamesCost;
    names, charged, e := ReadAll(w, budget, all);
    if e == Done {
      var alive := w.Alive();
      e := if alive then Done else Cancelled;
    }
    var closed := w.Look();
    if e == Done && !closed {
      e := Failed;
    }
  }

  method ReadAll(w: World, budget: Budget, all: seq<string>) returns (names: seq<string>, charged: nat, e: Outcome)
    requires budget.Valid()
    modifies budget, w`cancelled, w`noticed, w`troubles, w`refusals
    ensures budget.Valid() && budget.current == old(budget.current) + charged
    ensures e == Done ==> names == all && charged == NamesCost(all)
    ensures e in {Done, Cancelled, Limit, Failed} && Explained(w, e) && (e != Cancelled ==> w.noticed == old(w.noticed))
    ensures old(w.troubles) <= w.troubles && old(w.refusals) <= w.refusals && (old(w.cancelled) ==> w.cancelled) && old(w.noticed) <= w.noticed
    ensures e != Limit ==> w.refusals == old(w.refusals)
    ensures e == Done ==> w.troubles == old(w.troubles)
    ensures e == Limit ==> old(budget.current) + NamesCost(all) > budget.limit
  {
    names, charged, e := [], 0, Done;
    hide NameCost, NamesCost;
    NoNames();
    while |names| < |all|
      invariant budget.Valid() && budget.current == old(budget.current) + charged && e == Done
      invariant |names| <= |all| && names == all[..|names|] && charged == NamesCost(names)
      invariant w.troubles == old(w.troubles) && w.refusals == old(w.refusals) && (old(w.cancelled) ==> w.cancelled) && w.noticed == old(w.noticed)
    {
      e := ReadOne(w);
      if e != Done {
        return;
      }
      var name := all[|names|];
      var cost := ChargeName(w, budget, name);
      if cost.None? {
        CostGrows(all, |names|);
        return names, charged, Limit;
      }
      NameAdded(names, name);
      names, charged := names + [name], charged + cost.value;
    }
    assert all[..|all|] == all;
  }

  method ReadOne(w: World) returns (e: Outcome)
    modifies w`cancelled, w`noticed, w`troubles
    ensures e in {Done, Cancelled, Failed} && (e == Cancelled ==> w.cancelled && w.noticed > old(w.noticed)) && (e != Cancelled ==> w.noticed == old(w.noticed)) && (old(w.cancelled) ==> w.cancelled) && old(w.noticed) <= w.noticed
    ensures w.troubles == old(w.troubles) + if e == Failed then 1 else 0
  {
    var alive := w.Alive();
    if !alive {
      return Cancelled;
    }
    var read := w.Look();
    e := if read then Done else Failed;
  }

  // ----- walking -----

  // What a walk meets: a path that cannot be inspected, a file, or a directory in lexical order.
  datatype Tree = Unreadable | Leaf | Directory(children: seq<Child>)
  datatype Child = Child(name: string, tree: Tree)

  function Names(children: seq<Child>): seq<string>
  {
    seq(|children|, i requires 0 <= i < |children| => children[i].name)
  }

  function Join(path: string, name: string): string
  {
    path + "/" + name
  }

  // What discovery comes to if nothing but the callback ends it: its calls, and how it ends.
  datatype Course = Course(visits: seq<Visited>, end: Outcome) {
    function Then(next: Course): Course
    {
      if end == Done then Course(visits + next.visits, next.end) else this
    }

    // A directory whose rest is skipped is done.
    function Skipped(): Course
    {
      if end == SkipDir then Course(visits, Done) else this
    }
  }

  // filepath.Walk, in lexical order, if it starts with held in the budget after k calls of the callback. A
  // path is visited under its own charge, a directory under that of its names too, a child under all of it.
  function Preorder(a: Answers, path: string, t: Tree, held: int, k: nat): Course
    decreases t, 1
  {
    Admitted(a, path, t, held + 512 + 4 * |path|, k)
  }

  function Admitted(a: Answers, path: string, t: Tree, held: int, k: nat): Course
    decreases t, 0
  {
    if t.Directory? then
      var named := held + NamesCost(Names(t.children));
      var here := Course([Visited(path, named)], a(k));
      if a(k) == Done then here.Then(PreorderAll(a, path, t.children, named, k + 1)) else here.Skipped()
    else Course([Visited(path, held)], a(k))
  }

  function PreorderAll(a: Answers, path: string, children: seq<Child>, held: int, k: nat): Course
    decreases children
  {
    if children == [] then Course([], Done) else
      assert children[0] in children;
      var first := PreorderChild(a, path, children[0], held, k);
      if first.end == Done then first.Then(PreorderAll(a, path, children[1..], held, k + |first.visits|)) else first.Skipped()
  }

  function PreorderChild(a: Answers, path: string, child: Child, held: int, k: nat): Course
    decreases child
  {
    Preorder(a, Join(path, child.name), child.tree, held + 66 + 2 * (|path| + |child.name|), k)
  }

  // Where discovery stands: what the budget holds beside what the callback keeps, and what happened so far.
  datatype Mark = Mark(held: int, kept: nat, visits: seq<Visited>, troubles: nat, refusals: nat, noticed: nat)

  ghost function Here(w: World, budget: Budget): Mark
    reads w, budget
  {
    Mark(budget.current - w.kept, w.kept, w.visits, w.troubles, w.refusals, w.noticed)
  }

  // On every exit: the budget holds what it held and what the callback reserved since; who goes on was
  // neither refused nor found cancelled, and a refusal is told.
  ghost predicate Level(from: Mark, to: Mark, e: Outcome)
  {
    && to.held == from.held && to.kept >= from.kept
    && to.troubles >= from.troubles && to.refusals >= from.refusals && to.noticed >= from.noticed
    && (e in {Done, SkipDir, SkipAll} ==> to.refusals == from.refusals && to.noticed == from.noticed)
    && (to.refusals > from.refusals ==> e in {Limit, Cancelled})
  }

  // Nothing but the callback could end it: no call failed, no charge was refused, nobody cancelled in time.
  ghost predicate Calm(from: Mark, to: Mark)
  {
    to.troubles == from.troubles && to.refusals == from.refusals && to.noticed == from.noticed
  }

  // What a walk or a glob promises on every exit; course is what it comes to by itself.
  ghost predicate Follows(from: Mark, to: Mark, e: Outcome, course: Course)
  {
    Level(from, to, e) && (Calm(from, to) ==> e == course.end && to.visits == from.visits + course.visits)
  }

  // A callback that always goes on.
  ghost predicate Willing(a: Answers)
  {
    forall k :: a(k) == Done
  }

  lemma Unwilling(a: Answers, k: nat)
    ensures a(k) != Done ==> !Willing(a)
  {
  }

  // Every path of a tree, each directory before what it holds.
  function Listed(path: string, t: Tree): seq<string>
    decreases t
  {
    [path] + if t.Directory? then ListedAll(path, t.children) else []
  }

  function ListedAll(path: string, children: seq<Child>): seq<string>
    decreases children
  {
    if children == [] then [] else
      assert children[0] in children;
      Listed(Join(path, children[0].name), children[0].tree) + ListedAll(path, children[1..])
  }

  function PathsOf(visits: seq<Visited>): seq<string>
  {
    seq(|visits|, i requires 0 <= i < |visits| => visits[i].path)
  }

  lemma PathsOfBoth(v: seq<Visited>, w: seq<Visited>)
    ensures PathsOf(v + w) == PathsOf(v) + PathsOf(w)
  {
  }

  // A callback that always goes on is called for every path, and the walk succeeds.
  lemma WillingWalk(a: Answers, path: string, t: Tree, held: int, k: nat)
    requires Willing(a)
    ensures Preorder(a, path, t, held, k).end == Done && PathsOf(Preorder(a, path, t, held, k).visits) == Listed(path, t)
    decreases t
  {
    if t.Directory? {
      var named := held + 512 + 4 * |path| + NamesCost(Names(t.children));
      WillingAll(a, path, t.children, named, k + 1);
      PathsOfBoth([Visited(path, named)], PreorderAll(a, path, t.children, named, k + 1).visits);
    }
  }

  lemma WillingAll(a: Answers, path: string, children: seq<Child>, held: int, k: nat)
    requires Willing(a)
    ensures PreorderAll(a, path, children, held, k).end == Done
    ensures PathsOf(PreorderAll(a, path, children, held, k).visits) == ListedAll(path, children)
    decreases children
  {
    if children != [] {
      assert children[0] in children;
      var first := PreorderChild(a, path, children[0], held, k);
      WillingWalk(a, Join(path, children[0].name), children[0].tree, held + 66 + 2 * (|path| + |children[0].name|), k);
      WillingAll(a, path, children[1..], held, k + |first.visits|);
      PathsOfBoth(first.visits, PreorderAll(a, path, children[1..], held, k + |first.visits|).visits);
    }
  }

  // The walk of WalkZIPInputs.
  method Walk(w: World, budget: Budget, path: string, t: Tree) returns (e: Outcome)
    requires budget.Valid()
    modifies budget, w
    ensures budget.Valid() && Follows(old(Here(w, budget)), Here(w, budget), e, Preorder(w.answers, path, t, old(budget.current - w.kept), |old(w.visits)|))
    ensures Willing(w.answers) && e == Done && t != Unreadable ==> !w.cancelled || w.troubles > old(w.troubles)
    decreases t
  {
    var alive := w.Alive();
    if !alive {
      return Cancelled;
    }
    var cost := w.Charge(budget, 512, 4, |path|);
    if cost.None? {
      return Limit;
    }
    if t.Directory? {
      e := WalkDirectory(w, budget, path, t);
    } else {
      e := w.Visit(budget, path);
      if e == Done && t.Leaf? {
        alive := w.Alive();
        e := if alive then Done else Cancelled;
      }
    }
    var freed := budget.Release(cost.value);
  }

  method WalkDirectory(w: World, budget: Budget, path: string, t: Tree) returns (e: Outcome)
    requires budget.Valid() && t.Directory? && !w.cancelled
    modifies budget, w
    ensures budget.Valid() && Follows(old(Here(w, budget)), Here(w, budget), e, Admitted(w.answers, path, t, old(budget.current - w.kept), |old(w.visits)|))
    ensures Willing(w.answers) && e == Done ==> !w.cancelled || w.troubles > old(w.troubles)
    decreases t, 4
  {
    hide Willing, PreorderAll, NamesCost;
    var names, charged, readError := ReadNames(w, budget, Names(t.children));
    var alive := w.Alive();
    if !alive {
      e := Cancelled;
    } else if readError == Limit {
      e := Limit;
    } else {
      e := w.Visit(budget, path);
      Unwilling(w.answers, |old(w.visits)|);
      if e != Done || readError != Done {
        if e == SkipDir {
          e := Done;
        }
      } else {
        e := WalkChildren(w, budget, path, t);
      }
    }
    var freed := budget.Release(charged);
  }

  // The loop over the names of a directory, each child under its own charge, and a last look at the context.
  method WalkChildren(w: World, budget: Budget, path: string, t: Tree) returns (e: Outcome)
    requires budget.Valid() && t.Directory?
    modifies budget, w
    ensures budget.Valid() && Follows(old(Here(w, budget)), Here(w, budget), e, PreorderAll(w.answers, path, t.children, old(budget.current - w.kept), |old(w.visits)|))
    ensures Willing(w.answers) && e == Done ==> !w.cancelled || w.troubles > old(w.troubles)
    decreases t, 3
  {
    hide PreorderAll, Willing;
    e := WalkEach(w, budget, path, t);
    if e == SkipDir {
      return Done;
    }
    if e == Done {
      var alive := w.Alive();
      e := if alive then Done else Cancelled;
    }
  }

  // SkipDir is what the child said that skips the rest.
  method WalkEach(w: World, budget: Budget, path: string, t: Tree) returns (e: Outcome)
    requires budget.Valid() && t.Directory?
    modifies budget, w
    ensures budget.Valid() && Level(old(Here(w, budget)), Here(w, budget), e)
    ensures var course := PreorderAll(w.answers, path, t.children, old(budget.current - w.kept), |old(w.visits)|);
            Calm(old(Here(w, budget)), Here(w, budget)) ==> w.visits == old(w.visits) + course.visits && course.end == if e == SkipDir then Done else e
    ensures e == SkipDir && Calm(old(Here(w, budget)), Here(w, budget)) ==> !Willing(w.answers)
    decreases t, 2
  {
    e := Done;
    var i := 0;
    ghost var seen: seq<Visited> := [];
    ghost var start := Here(w, budget);
    PartlyAtStart(w.answers, path, t.children, start);
    hide Ahead, PreorderChild, PreorderAll, Willing, Level, Calm, Follows;
    while i < |t.children|
      invariant i <= |t.children| && budget.Valid() && e == Done
      invariant Partly(w.answers, path, t.children, i, start, Here(w, budget), seen)
    {
      ghost var before := Here(w, budget);
      e := WalkNext(w, budget, path, t, i);
      PartlyStep(w.answers, path, t.children, i, start, before, Here(w, budget), seen, e);
      if e != Done {
        return;
      }
      seen := seen + PreorderChild(w.answers, path, t.children[i], before.held, |before.visits|).visits;
      i := i + 1;
    }
    PartlyAtEnd(w.answers, path, t.children, start, Here(w, budget), seen);
  }

  method WalkNext(w: World, budget: Budget, path: string, t: Tree, i: nat) returns (e: Outcome)
    requires budget.Valid() && t.Directory? && i < |t.children|
    modifies budget, w
    ensures budget.Valid()
    ensures Follows(old(Here(w, budget)), Here(w, budget), e, PreorderChild(w.answers, path, t.children[i], old(budget.current - w.kept), |old(w.visits)|))
    ensures e == SkipDir && Calm(old(Here(w, budget)), Here(w, budget)) ==> !Willing(w.answers)
    decreases t, 1
  {
    ghost var held, k := budget.current - w.kept, |w.visits|;
    assert t.children[i] in t.children;
    hide Preorder, Willing;
    e := WalkChild(w, budget, path, t, t.children[i]);
    if Willing(w.answers) {
      var child := t.children[i];
      WillingWalk(w.answers, Join(path, child.name), child.tree, held + 66 + 2 * (|path| + |child.name|), k);
    }
  }

  // The first i children are done after these visits; the others are still to come.
  ghost predicate Ahead(a: Answers, path: string, children: seq<Child>, i: nat, held: int, k: nat, seen: seq<Visited>)
    requires i <= |children|
  {
    PreorderAll(a, path, children, held, k) == Course(seen, Done).Then(PreorderAll(a, path, children[i..], held, k + |seen|))
  }

  lemma AheadAtStart(a: Answers, path: string, children: seq<Child>, held: int, k: nat)
    ensures Ahead(a, path, children, 0, held, k, [])
  {
    assert children[0..] == children;
    assert [] + PreorderAll(a, path, children, held, k).visits == PreorderAll(a, path, children, held, k).visits;
  }

  lemma AheadStep(a: Answers, path: string, children: seq<Child>, i: nat, held: int, k: nat, seen: seq<Visited>)
    requires i < |children| && Ahead(a, path, children, i, held, k, seen)
    ensures var first := PreorderChild(a, path, children[i], held, k + |seen|);
            if first.end == Done then Ahead(a, path, children, i + 1, held, k, seen + first.visits)
            else PreorderAll(a, path, children, held, k) == Course(seen + first.visits, if first.end == SkipDir then Done else first.end)
  {
    hide PreorderChild, PreorderAll;
    PreorderFrom(a, path, children, i, held, k + |seen|);
    var first := PreorderChild(a, path, children[i], held, k + |seen|);
    if first.end == Done {
      ThenThen(seen, first, PreorderAll(a, path, children[i + 1..], held, k + |seen| + |first.visits|));
    }
  }

  lemma PreorderFrom(a: Answers, path: string, children: seq<Child>, i: nat, held: int, k: nat)
    requires i < |children|
    ensures var first := PreorderChild(a, path, children[i], held, k);
            var rest := PreorderAll(a, path, children[i + 1..], held, k + |first.visits|);
            PreorderAll(a, path, children[i..], held, k) == (if first.end == Done then first.Then(rest) else first.Skipped())
  {
    hide PreorderChild;
    assert children[i..][1..] == children[i + 1..] && children[i..][0] == children[i];
  }

  lemma ThenThen(seen: seq<Visited>, first: Course, rest: Course)
    requires first.end == Done
    ensures Course(seen, Done).Then(first.Then(rest)) == Course(seen + first.visits, Done).Then(rest)
  {
    assert seen + (first.visits + rest.visits) == seen + first.visits + rest.visits;
  }

  lemma AheadAtEnd(a: Answers, path: string, children: seq<Child>, held: int, k: nat, seen: seq<Visited>)
    requires Ahead(a, path, children, |children|, held, k, seen)
    ensures PreorderAll(a, path, children, held, k) == Course(seen, Done)
  {
  }

  // So far the walk of the children has gone on, with these visits.
  ghost predicate Partly(a: Answers, path: string, children: seq<Child>, i: nat, from: Mark, to: Mark, seen: seq<Visited>)
    requires i <= |children|
  {
    && Level(from, to, Done)
    && (Calm(from, to) ==> to.visits == from.visits + seen && Ahead(a, path, children, i, from.held, |from.visits|, seen))
  }

  lemma PartlyAtStart(a: Answers, path: string, children: seq<Child>, from: Mark)
    ensures Partly(a, path, children, 0, from, from, [])
  {
    AheadAtStart(a, path, children, from.held, |from.visits|);
  }

  lemma PartlyStep(a: Answers, path: string, children: seq<Child>, i: nat, from: Mark, mid: Mark, to: Mark, seen: seq<Visited>, e: Outcome)
    requires i < |children| && Partly(a, path, children, i, from, mid, seen)
    requires Follows(mid, to, e, PreorderChild(a, path, children[i], mid.held, |mid.visits|))
    ensures e == Done ==> Partly(a, path, children, i + 1, from, to, seen + PreorderChild(a, path, children[i], mid.held, |mid.visits|).visits)
    ensures e != Done ==> Level(from, to, e)
    ensures var course := PreorderAll(a, path, children, from.held, |from.visits|);
            e != Done && Calm(from, to) ==> Calm(mid, to) && to.visits == from.visits + course.visits && course.end == if e == SkipDir then Done else e
  {
    if Calm(from, to) {
      AheadStep(a, path, children, i, from.held, |from.visits|, seen);
    }
  }

  lemma PartlyAtEnd(a: Answers, path: string, children: seq<Child>, from: Mark, to: Mark, seen: seq<Visited>)
    requires Partly(a, path, children, |children|, from, to, seen)
    ensures Follows(from, to, Done, PreorderAll(a, path, children, from.held, |from.visits|))
    ensures Level(from, to, Done)
    ensures var course := PreorderAll(a, path, children, from.held, |from.visits|);
            Calm(from, to) ==> to.visits == from.visits + course.visits && course.end == Done
  {
    if Calm(from, to) {
      AheadAtEnd(a, path, children, from.held, |from.visits|, seen);
    }
  }

  method WalkChild(w: World, budget: Budget, path: string, ghost t: Tree, child: Child) returns (e: Outcome)
    requires budget.Valid() && t.Directory? && child in t.children
    modifies budget, w
    ensures budget.Valid() && Follows(old(Here(w, budget)), Here(w, budget), e, PreorderChild(w.answers, path, child, old(budget.current - w.kept), |old(w.visits)|))
    decreases t, 0
  {
    var alive := w.Alive();
    if !alive {
      return Cancelled;
    }
    var cost := w.Charge(budget, 66, 2, |path| + |child.name|);
    if cost.None? {
      return Limit;
    }
    e := Walk(w, budget, Join(path, child.name), child.tree);
    var freed := budget.Release(cost.value);
  }

  // WalkZIPInputs: the sentinels end the walk quietly.
  method WalkInputs(w: World, budget: Budget, root: string, t: Tree) returns (e: Outcome)
    requires budget.Valid()
    modifies budget, w
    ensures budget.Valid() && Level(old(Here(w, budget)), Here(w, budget), e) && e !in {SkipDir, SkipAll}
    ensures var course := Preorder(w.answers, root, t, old(budget.current - w.kept), |old(w.visits)|);
            Calm(old(Here(w, budget)), Here(w, budget)) ==> w.visits == old(w.visits) + course.visits && e == if course.end in {SkipDir, SkipAll} then Done else course.end
    ensures Willing(w.answers) && e == Done && t != Unreadable ==> !w.cancelled || w.troubles > old(w.troubles)
  {
    ghost var held, k := budget.current - w.kept, |w.visits|;
    hide Preorder, Willing;
    e := Walk(w, budget, root, t);
    if e in {SkipDir, SkipAll} {
      if Willing(w.answers) {
        WillingWalk(w.answers, root, t, held, k);
      }
      e := Done;
    }
  }

  // ----- globbing -----

  const MAX_GLOB_DEPTH := 10000

  // Path syntax is the platform's: whether a pattern has wildcards, its directory and file parts, whether
  // it is well formed, and what it matches.
  datatype Syntax = Syntax(hasMeta: string -> bool, dir: string -> string, file: string -> string,
                           wellFormed: string -> bool, matches: (string, string) -> bool)

  // The files of an unchanging tree: whether a path is there, and the names in a directory, in lexical order.
  datatype Files = Files(present: string -> bool, list: string -> Option<seq<string>>)

  // What a path comes to once the rest of the pattern is matched below it, if that starts with held in the
  // budget after k calls of the callback.
  function Emitted(a: Answers, f: Files, syntax: Syntax, path: string, rest: seq<string>, held: int, k: nat): Course
    decreases |rest|, 3
  {
    if rest == [] then Course([Visited(path, held)], a(k)) else Below(a, f, syntax, path, rest, held, k)
  }

  function Below(a: Answers, f: Files, syntax: Syntax, directory: string, rest: seq<string>, held: int, k: nat): Course
    requires rest != []
    decreases |rest|, 2
  {
    match f.list(directory)
    case None => Course([], Done)
    case Some(names) => BelowNames(a, f, syntax, directory, names, rest, held + NamesCost(names), k)
  }

  function BelowNames(a: Answers, f: Files, syntax: Syntax, directory: string, names: seq<string>, rest: seq<string>, held: int, k: nat): Course
    requires rest != []
    decreases |rest|, 1, |names|
  {
    if names == [] then Course([], Done)
    else
      var before := BelowNames(a, f, syntax, directory, names[..|names| - 1], rest, held, k);
      before.Then(BelowName(a, f, syntax, directory, names[|names| - 1], rest, held, k + |before.visits|))
  }

  function BelowName(a: Answers, f: Files, syntax: Syntax, directory: string, name: string, rest: seq<string>, held: int, k: nat): Course
    requires rest != []
    decreases |rest|, 0
  {
    if !syntax.wellFormed(rest[0]) then Course([], BadPattern)
    else if syntax.matches(rest[0], name) then
      Emitted(a, f, syntax, Join(directory, name), rest[1..], held + 66 + 2 * (|directory| + |name|), k)
    else Course([], Done)
  }

  // What a pattern comes to: each level of it keeps its own charge while the levels above it are matched.
  function Globbed(a: Answers, f: Files, syntax: Syntax, pattern: string, depth: nat, rest: seq<string>, held: int, k: nat): Course
    requires depth <= MAX_GLOB_DEPTH
    decreases MAX_GLOB_DEPTH - depth
  {
    if depth == MAX_GLOB_DEPTH then Course([], BadPattern)
    else Expanded(a, f, syntax, pattern, depth, rest, held + 512 + 4 * |pattern|, k)
  }

  function Expanded(a: Answers, f: Files, syntax: Syntax, pattern: string, depth: nat, rest: seq<string>, held: int, k: nat): Course
    requires depth < MAX_GLOB_DEPTH
    decreases MAX_GLOB_DEPTH - depth, 0
  {
    var dir, below := syntax.dir(pattern), [syntax.file(pattern)] + rest;
    if !syntax.hasMeta(pattern) then (if f.present(pattern) then Emitted(a, f, syntax, pattern, rest, held, k) else Course([], Done))
    else if !syntax.hasMeta(dir) then Below(a, f, syntax, dir, below, held, k)
    else if dir == pattern then Course([], BadPattern)
    else Globbed(a, f, syntax, dir, depth + 1, below, held, k)
  }

  // GlobZIPInputs
  method GlobInputs(w: World, budget: Budget, f: Files, syntax: Syntax, pattern: string) returns (e: Outcome)
    requires budget.Valid()
    modifies budget, w
    ensures budget.Valid() && Follows(old(Here(w, budget)), Here(w, budget), e, if syntax.wellFormed(pattern) then Globbed(w.answers, f, syntax, pattern, 0, [], old(budget.current - w.kept), |old(w.visits)|) else Course([], BadPattern))
    ensures Willing(w.answers) && e == Done ==> !w.cancelled || w.troubles > old(w.troubles)
    ensures !syntax.wellFormed(pattern) ==> e == BadPattern && w.visits == old(w.visits)
  {
    if !syntax.wellFormed(pattern) {
      return BadPattern;
    }
    e := Glob(w, budget, f, syntax, pattern, 0, []);
  }

  // The recursion; rest are the file patterns still to match below what it emits.
  method Glob(w: World, budget: Budget, f: Files, syntax: Syntax, pattern: string, depth: nat, rest: seq<string>) returns (e: Outcome)
    requires budget.Valid() && depth <= MAX_GLOB_DEPTH
    modifies budget, w
    ensures budget.Valid() && Follows(old(Here(w, budget)), Here(w, budget), e, Globbed(w.answers, f, syntax, pattern, depth, rest, old(budget.current - w.kept), |old(w.visits)|))
    ensures Willing(w.answers) && e == Done ==> !w.cancelled || w.troubles > old(w.troubles)
    decreases MAX_GLOB_DEPTH - depth
  {
    hide Emitted, Below, Willing;
    var alive := w.Alive();
    if !alive {
      return Cancelled;
    }
    if depth == MAX_GLOB_DEPTH {
      return BadPattern;
    }
    var cost := w.Charge(budget, 512, 4, |pattern|);
    if cost.None? {
      return Limit;
    }
    if !syntax.hasMeta(pattern) {
      e := EmitLiteral(w, budget, f, syntax, pattern, rest);
    } else {
      var dir, file := syntax.dir(pattern), syntax.file(pattern);
      if !syntax.hasMeta(dir) {
        e := MatchDirectory(w, budget, f, syntax, dir, [file] + rest);
      } else if dir == pattern {
        e := BadPattern;
      } else {
        e := Glob(w, budget, f, syntax, dir, depth + 1, [file] + rest);
      }
    }
    var freed := budget.Release(cost.value);
  }

  // A pattern without wildcards is one path, if it exists.
  method EmitLiteral(w: World, budget: Budget, f: Files, syntax: Syntax, pattern: string, rest: seq<string>) returns (e: Outcome)
    requires budget.Valid() && !w.cancelled
    modifies budget, w
    ensures budget.Valid() && Follows(old(Here(w, budget)), Here(w, budget), e, if f.present(pattern) then Emitted(w.answers, f, syntax, pattern, rest, old(budget.current - w.kept), |old(w.visits)|) else Course([], Done))
    ensures Willing(w.answers) && e == Done ==> !w.cancelled || w.troubles > old(w.troubles)
  {
    if !f.present(pattern) {
      return Done;
    }
    var found := w.Look();
    if !found {
      return Done;
    }
    e := Emit(w, budget, f, syntax, pattern, rest);
    if e == Done {
      var alive := w.Alive();
      e := if alive then Done else Cancelled;
    }
  }

  // Hands a path to the callback, or matches below it first.
  method Emit(w: World, budget: Budget, f: Files, syntax: Syntax, path: string, rest: seq<string>) returns (e: Outcome)
    requires budget.Valid() && !w.cancelled
    modifies budget, w
    ensures budget.Valid() && Follows(old(Here(w, budget)), Here(w, budget), e, Emitted(w.answers, f, syntax, path, rest, old(budget.current - w.kept), |old(w.visits)|))
    decreases |rest|, 1
  {
    if rest == [] {
      e := w.Visit(budget, path);
    } else {
      e := MatchDirectory(w, budget, f, syntax, path, rest);
    }
  }

  // matchDirectory: what cannot be read is ignored, refusals and cancellation are not.
  method MatchDirectory(w: World, budget: Budget, f: Files, syntax: Syntax, directory: string, rest: seq<string>) returns (e: Outcome)
    requires budget.Valid() && rest != [] && !w.cancelled
    modifies budget, w
    ensures budget.Valid() && Follows(old(Here(w, budget)), Here(w, budget), e, Below(w.answers, f, syntax, directory, rest, old(budget.current - w.kept), |old(w.visits)|))
    ensures Willing(w.answers) && e == Done ==> !w.cancelled || w.troubles > old(w.troubles)
    decreases |rest|, 0
  {
    hide BelowNames, NamesCost, Willing;
    var listing := f.list(directory);
    if listing.None? {
      return Done;
    }
    var isDirectory := w.Look();
    if !isDirectory {
      return Done;
    }
    var names, charged, readError := ReadNames(w, budget, listing.value);
    if readError != Done {
      var alive := w.Alive();
      e := if readError == Limit || !alive then readError else Done;
    } else {
      e := MatchNames(w, budget, f, syntax, directory, names, rest);
    }
    var freed := budget.Release(charged);
  }

  method MatchNames(w: World, budget: Budget, f: Files, syntax: Syntax, directory: string, names: seq<string>, rest: seq<string>) returns (e: Outcome)
    requires budget.Valid() && rest != [] && !w.cancelled
    modifies budget, w
    ensures budget.Valid() && Follows(old(Here(w, budget)), Here(w, budget), e, BelowNames(w.answers, f, syntax, directory, names, rest, old(budget.current - w.kept), |old(w.visits)|))
    ensures Willing(w.answers) && e == Done ==> !w.cancelled || w.troubles > old(w.troubles)
    decreases |rest| - 1, 3
  {
    hide BelowName, BelowNames;
    NamesStart(w.answers, f, syntax, directory, rest, budget.current - w.kept, |w.visits|);
    for i := 0 to |names|
      invariant budget.Valid() && Follows(old(Here(w, budget)), Here(w, budget), Done, BelowNames(w.answers, f, syntax, directory, names[..i], rest, old(budget.current - w.kept), |old(w.visits)|))
    {
      NamesStep(w.answers, f, syntax, directory, names, rest, old(budget.current - w.kept), |old(w.visits)|, i);
      e := MatchName(w, budget, f, syntax, directory, names[i], rest);
      if e != Done {
        return;
      }
    }
    assert names[..|names|] == names;
    var alive := w.Alive();
    e := if alive then Done else Cancelled;
  }

  lemma NamesStart(a: Answers, f: Files, syntax: Syntax, directory: string, rest: seq<string>, held: int, k: nat)
    requires rest != []
    ensures BelowNames(a, f, syntax, directory, [], rest, held, k) == Course([], Done)
  {
  }

  lemma NamesStep(a: Answers, f: Files, syntax: Syntax, directory: string, names: seq<string>, rest: seq<string>, held: int, k: nat, i: nat)
    requires rest != [] && i < |names|
    ensures var before := BelowNames(a, f, syntax, directory, names[..i], rest, held, k);
            var after := BelowNames(a, f, syntax, directory, names[..i + 1], rest, held, k);
            && after == before.Then(BelowName(a, f, syntax, directory, names[i], rest, held, k + |before.visits|))
            && (after.end != Done ==> BelowNames(a, f, syntax, directory, names, rest, held, k) == after)
  {
    assert names[..i + 1][..i] == names[..i];
    if BelowNames(a, f, syntax, directory, names[..i + 1], rest, held, k).end != Done {
      EndStays(a, f, syntax, directory, names, rest, held, k, i + 1);
    }
  }

  lemma {:induction false} EndStays(a: Answers, f: Files, syntax: Syntax, directory: string, names: seq<string>, rest: seq<string>, held: int, k: nat, i: nat)
    requires rest != [] && i <= |names| && BelowNames(a, f, syntax, directory, names[..i], rest, held, k).end != Done
    ensures BelowNames(a, f, syntax, directory, names, rest, held, k) == BelowNames(a, f, syntax, directory, names[..i], rest, held, k)
    decreases |names| - i
  {
    if i == |names| {
      assert names[..i] == names;
    } else {
      assert names[..i + 1][..i] == names[..i];
      EndStays(a, f, syntax, directory, names, rest, held, k, i + 1);
    }
  }

  method MatchName(w: World, budget: Budget, f: Files, syntax: Syntax, directory: string, name: string, rest: seq<string>) returns (e: Outcome)
    requires budget.Valid() && rest != []
    modifies budget, w
    ensures budget.Valid() && Follows(old(Here(w, budget)), Here(w, budget), e, BelowName(w.answers, f, syntax, directory, name, rest, old(budget.current - w.kept), |old(w.visits)|))
    decreases |rest| - 1, 2
  {
    var alive := w.Alive();
    if !alive {
      return Cancelled;
    }
    if !syntax.wellFormed(rest[0]) {
      return BadPattern;
    }
    if !syntax.matches(rest[0], name) {
      return Done;
    }
    var cost := w.Charge(budget, 66, 2, |directory| + |name|);
    if cost.None? {
      return Limit;
    }
    e := Emit(w, budget, f, syntax, Join(directory, name), rest[1..]);
    var freed := budget.Release(cost.value);
  }
}
