/** Initialization stages, numbered on first use so that every stage comes after those it depends on. */
module InitStageRegistry {
  import opened InitStageOrder
  import opened Sequences

  class InitStage {
    const name: string
    var number: int
    var precedingStages: seq<InitStage>
    var followingStages: seq<InitStage>

    constructor (name: string)
      ensures this.name == name && number == -1 && precedingStages == [] && followingStages == []
    {
      this.name, number, precedingStages, followingStages := name, -1, [], [];
    }
  }

  datatype Outcome = Numbered | UnknownStage(name: string) | Circle

  ghost function Names(stages: seq<InitStage>): (n: seq<string>)
    ensures |n| == |stages| && forall i :: 0 <= i < |n| ==> n[i] == stages[i].name
  {
    seq(|stages|, i requires 0 <= i < |stages| => stages[i].name)
  }

  class InitStageRegistry {
    var numInitStages: int
    var stages: seq<InitStage>
    var dependencies: seq<Dependency<string>>

    constructor ()
      ensures Valid() && stages == [] && dependencies == [] && numInitStages == -1
    {
      numInitStages, stages, dependencies := -1, [], [];
    }

    /** Stage names are unique. */
    ghost predicate Valid()
      reads this`stages
    {
      Distinct(Names(stages))
    }

    /** The first stage of the given name; without one the source throws. */
    method GetInitStage(name: string) returns (r: InitStage?)
      ensures r == null <==> name !in Names(stages)
      ensures r != null ==> r in stages && r.name == name
    {
      r := null;
      for i := 0 to |stages|
        invariant forall j :: 0 <= j < i ==> stages[j].name != name
      {
        if stages[i].name == name {
          return stages[i];
        }
      }
    }

    method AddInitStage(stage: InitStage)
      requires Valid() && stage.name !in Names(stages)
      modifies this
      ensures Valid() && stages == old(stages) + [stage] && dependencies == old(dependencies) && numInitStages == -1
      ensures Names(stages) == old(Names(stages)) + [stage.name]
    {
      stages := stages + [stage];
      numInitStages := -1;
    }

    method AddInitStageDependency(source: string, target: string)
      requires Valid()
      modifies this
      ensures Valid() && dependencies == old(dependencies) + [(source, target)] && stages == old(stages) &&
        numInitStages == -1
    {
      dependencies := dependencies + [(source, target)];
      numInitStages := -1;
    }

    // ---------- links between stages ----------

    /** The stages carry the links of the first `k` dependencies, in both directions. */
    ghost predicate Linked(k: nat)
      reads this`stages, this`dependencies, stages`precedingStages, stages`followingStages
    {
      k <= |dependencies| && forall s :: s in stages ==> LinksOf(s, dependencies[..k])
    }

    ghost predicate LinksOf(s: InitStage, d: seq<Dependency<string>>)
      reads this`stages, s`precedingStages, s`followingStages
    {
      LinksBy(stages, s.name, s.precedingStages, s.followingStages, d)
    }

    static ghost predicate LinksBy(all: seq<InitStage>, name: string, preceding: seq<InitStage>,
                                   following: seq<InitStage>, d: seq<Dependency<string>>) {
      (forall p :: p in preceding ==> p in all && (name, p.name) in d) &&
      (forall f :: f in following ==> f in all && (f.name, name) in d) &&
      (forall e :: e in d && e.0 == name ==> exists p :: p in preceding && p.name == e.1) &&
      (forall e :: e in d && e.1 == name ==> exists f :: f in following && f.name == e.0)
    }

    /** One more dependency, with the links for it where they belong. */
    static lemma LinkAdded(all: seq<InitStage>, name: string, ps: seq<InitStage>, fs: seq<InitStage>,
                           d: seq<Dependency<string>>, following: InitStage, preceding: InitStage)
      requires LinksBy(all, name, ps, fs, d) && following in all && preceding in all
      ensures LinksBy(all, name, if name == following.name then ps + [preceding] else ps,
                      if name == preceding.name then fs + [following] else fs, d + [(following.name, preceding.name)])
    {
      var x := (following.name, preceding.name);
      var qs := if name == following.name then ps + [preceding] else ps;
      var gs := if name == preceding.name then fs + [following] else fs;
      forall e | e in d + [x] && e.0 == name ensures exists p :: p in qs && p.name == e.1 {
        if e in d {
          var p :| p in ps && p.name == e.1;
          assert p in qs;
        } else {
          assert preceding in qs;
        }
      }
      forall e | e in d + [x] && e.1 == name ensures exists f :: f in gs && f.name == e.0 {
        if e in d {
          var f :| f in fs && f.name == e.0;
          assert f in gs;
        } else {
          assert following in gs;
        }
      }
    }

    lemma SameName(a: InitStage, b: InitStage)
      requires Valid() && a in stages && b in stages
      ensures a == b <==> a.name == b.name
    {
      var i :| 0 <= i < |stages| && stages[i] == a;
      var j :| 0 <= j < |stages| && stages[j] == b;
      assert Names(stages)[i] == a.name && Names(stages)[j] == b.name;
    }

    method Reset()
      requires Valid()
      modifies stages
      ensures Linked(0) && forall s :: s in stages ==> s.number == -1
    {
      for i := 0 to |stages|
        invariant forall j :: 0 <= j < i ==>
          stages[j].number == -1 && stages[j].precedingStages == [] && stages[j].followingStages == []
      {
        var stage := stages[i];
        stage.number := -1;
        stage.followingStages := [];
        stage.precedingStages := [];
      }
      assert dependencies[..0] == [];
    }

    lemma NamedAlike(a: InitStage)
      requires Valid() && a in stages
      ensures forall s :: s in stages ==> (s == a <==> s.name == a.name)
    {
      forall s | s in stages ensures s == a <==> s.name == a.name {
        SameName(s, a);
      }
    }

    lemma AllLinked(k: nat, following: InitStage, preceding: InitStage)
      requires Linked(k) && k < |dependencies| && following in stages && preceding in stages
      requires dependencies[k] == (following.name, preceding.name)
      ensures forall s :: s in stages ==>
        LinksBy(stages, s.name, if s.name == following.name then s.precedingStages + [preceding] else s.precedingStages,
                if s.name == preceding.name then s.followingStages + [following] else s.followingStages,
                dependencies[..k + 1])
    {
      hide LinksBy;
      assert dependencies[..k + 1] == dependencies[..k] + [dependencies[k]];
      forall s | s in stages
        ensures LinksBy(stages, s.name,
                        if s.name == following.name then s.precedingStages + [preceding] else s.precedingStages,
                        if s.name == preceding.name then s.followingStages + [following] else s.followingStages,
                        dependencies[..k + 1])
      {
        assert LinksOf(s, dependencies[..k]);
        LinkAdded(stages, s.name, s.precedingStages, s.followingStages, dependencies[..k], following, preceding);
      }
    }

    method LinkOne(k: nat, following: InitStage, preceding: InitStage)
      requires Valid() && Linked(k) && k < |dependencies| && following in stages && preceding in stages
      requires dependencies[k] == (following.name, preceding.name)
      modifies preceding`followingStages, following`precedingStages
      ensures Linked(k + 1)
    {
      hide *;
      NamedAlike(following);
      NamedAlike(preceding);
      AllLinked(k, following, preceding);
      preceding.followingStages := preceding.followingStages + [following];
      following.precedingStages := following.precedingStages + [preceding];
      NowLinked(k + 1);
    }

    lemma NowLinked(k: nat)
      requires k <= |dependencies|
      requires forall s :: s in stages ==>
        LinksBy(stages, s.name, s.precedingStages, s.followingStages, dependencies[..k])
      ensures Linked(k)
    {
      hide LinksBy;
    }

    method LinkStages() returns (outcome: Outcome)
      requires Valid() && Linked(0)
      modifies stages`followingStages, stages`precedingStages
      ensures outcome.Numbered? || outcome.UnknownStage?
      ensures outcome.Numbered? <==> Known(dependencies, Names(stages))
      ensures outcome.Numbered? ==> Linked(|dependencies|)
    {
      for k := 0 to |dependencies|
        invariant Linked(k)
        invariant Known(dependencies[..k], Names(stages))
      {
        var d := dependencies[k];
        var following := GetInitStage(d.0);
        if following == null {
          return UnknownStage(d.0);
        }
        var preceding := GetInitStage(d.1);
        if preceding == null {
          return UnknownStage(d.1);
        }
        assert dependencies[..k + 1] == dependencies[..k] + [d];
        LinkOne(k, following, preceding);
      }
      assert dependencies[..|dependencies|] == dependencies;
      outcome := Numbered;
    }

    // ---------- numbering ----------

    /** The stages numbered so far are those of `done`, in that order. */
    ghost predicate Counted(done: seq<string>)
      reads this`stages, this`numInitStages, stages`number
    {
      numInitStages == |done| && forall s :: s in stages ==> NumberOf(s, done)
    }

    ghost predicate NumberOf(s: InitStage, done: seq<string>)
      reads s`number
    {
      s.number == if s.name in done then Position(done, s.name) else -1
    }

    lemma AllLinks(stage: InitStage)
      requires stage in stages && Linked(|dependencies|)
      ensures LinksOf(stage, dependencies)
    {
      hide LinksOf;
      assert dependencies[..|dependencies|] == dependencies;
    }

    lemma ReadyByNumbers(stage: InitStage, done: seq<string>)
      requires stage in stages && LinksOf(stage, dependencies) && Counted(done)
      ensures Ready(dependencies, done, stage.name) <==> forall p :: p in stage.precedingStages ==> p.number != -1
    {
      forall p | p in stage.precedingStages ensures p.number != -1 <==> p.name in done {
        assert NumberOf(p, done);
      }
      if forall p :: p in stage.precedingStages ==> p.number != -1 {
        forall d | d in dependencies && d.0 == stage.name ensures d.1 in done {
          var p :| p in stage.precedingStages && p.name == d.1;
        }
      } else {
        var p :| p in stage.precedingStages && p.number == -1;
        assert (stage.name, p.name).0 == stage.name && (stage.name, p.name).1 == p.name;
      }
    }

    /** Have all preceding stages been numbered? */
    method IsReady(stage: InitStage, ghost done: seq<string>) returns (ready: bool)
      requires Valid() && stage in stages && Linked(|dependencies|) && Counted(done)
      ensures ready <==> Ready(dependencies, done, stage.name)
    {
      hide Linked, LinksOf, Counted, Ready;
      AllLinks(stage);
      ReadyByNumbers(stage, done);
      for i := 0 to |stage.precedingStages|
        invariant forall j :: 0 <= j < i ==> stage.precedingStages[j].number != -1
      {
        if stage.precedingStages[i].number == -1 {
          return false;
        }
      }
      ready := true;
    }

    lemma AppendedPosition(done: seq<string>, n: string, x: string)
      requires n !in done && x in done + [n]
      ensures Position(done + [n], x) == if x == n then |done| else Position(done, x)
      decreases done
    {
      if done != [] && x != done[0] {
        assert (done + [n])[1..] == done[1..] + [n];
        AppendedPosition(done[1..], n, x);
      }
    }

    lemma NumberedNext(stage: InitStage, done: seq<string>)
      requires Valid() && stage in stages && Counted(done) && stage.name !in done
      ensures Position(done + [stage.name], stage.name) == |done|
      ensures forall s :: s in stages && s != stage ==> NumberOf(s, done + [stage.name])
    {
      AppendedPosition(done, stage.name, stage.name);
      forall s | s in stages && s != stage ensures NumberOf(s, done + [stage.name]) {
        SameName(s, stage);
        assert NumberOf(s, done);
        if s.name in done {
          AppendedPosition(done, stage.name, s.name);
        }
      }
    }

    /** One stage's turn in a pass. */
    method Visit(stage: InitStage, ghost done: seq<string>) returns (progress: bool)
      requires Valid() && stage in stages && Linked(|dependencies|) && Counted(done)
      modifies this`numInitStages, stage`number
      ensures Counted(Visited(dependencies, done, stage.name)) && Linked(|dependencies|)
      ensures progress <==> Visited(dependencies, done, stage.name) != done
    {
      progress := false;
      assert NumberOf(stage, done);
      hide Linked, Counted;
      if stage.number == -1 {
        var ready := IsReady(stage, done);
        if ready {
          NumberedNext(stage, done);
          GiveNumber(stage, done);
          progress := true;
        }
      }
    }

    method GiveNumber(stage: InitStage, ghost done: seq<string>)
      requires Linked(|dependencies|) && stage in stages && numInitStages == |done|
      requires Position(done + [stage.name], stage.name) == |done|
      requires forall s :: s in stages && s != stage ==> NumberOf(s, done + [stage.name])
      modifies this`numInitStages, stage`number
      ensures Counted(done + [stage.name]) && Linked(|dependencies|)
    {
      hide Position, Linked;
      stage.number := numInitStages;
      numInitStages := numInitStages + 1;
    }

    method OnePass(ghost done: seq<string>) returns (progress: bool)
      requires Valid() && Linked(|dependencies|) && Counted(done)
      modifies this`numInitStages, stages`number
      ensures Counted(Pass(dependencies, done, Names(stages))) && Linked(|dependencies|)
      ensures progress <==> Pass(dependencies, done, Names(stages)) != done
    {
      progress := false;
      ghost var now, names := done, Names(stages);
      for i := 0 to |stages|
        invariant now == Pass(dependencies, done, names[..i]) && Counted(now) && Linked(|dependencies|)
        invariant done <= now && (progress <==> now != done)
      {
        var one := Visit(stages[i], now);
        assert names[..i + 1][..i] == names[..i];
        now := Visited(dependencies, now, names[i]);
        progress := progress || one;
      }
      assert names[..|names|] == names;
    }

    /** The library's sort by number; numbers are those of `done`, which has all stages. */
    method SortStages(ghost done: seq<string>)
      requires Valid() && Counted(done) && Distinct(done) && |done| == |stages|
      requires (forall n :: n in done ==> n in Names(stages)) && (forall n :: n in Names(stages) ==> n in done)
      modifies this`stages
      ensures Names(stages) == done && Valid() && forall i :: 0 <= i < |stages| ==> stages[i].number == i
      ensures forall s :: s in stages <==> s in old(stages)
    {
      var sorted: seq<InitStage> := [];
      for k := 0 to |stages|
        invariant |sorted| == k && forall i :: 0 <= i < k ==>
          sorted[i] in stages && sorted[i].name == done[i] && sorted[i].number == i
      {
        assert done[k] in Names(stages);
        ghost var j :| 0 <= j < |stages| && Names(stages)[j] == done[k];
        assert NumberOf(stages[j], done);
        assert done[Position(done, done[k])] == done[k];
        var s :| s in stages && s.number == k;
        assert NumberOf(s, done);
        sorted := sorted + [s];
      }
      assert Names(sorted) == done;
      forall s | s in stages ensures s in sorted {
        ghost var j :| 0 <= j < |stages| && stages[j] == s;
        assert Names(stages)[j] == s.name;
        SameName(s, sorted[Position(done, s.name)]);
      }
      stages := sorted;
    }

    /**
     * Numbers the stages unless a dependency names an unknown stage or the dependencies have a cycle.
     * After a cycle the stages outside of it keep their numbers, and their count stays in place.
     */
    method AssignInitStageNumbers() returns (outcome: Outcome)
      requires Valid()
      modifies this`numInitStages, this`stages, stages
      ensures Valid() && outcome.UnknownStage? == !old(Known(dependencies, Names(stages)))
      ensures outcome.Circle? ==> !Acyclic(dependencies)
      ensures outcome.Numbered? ==> Acyclic(dependencies)
      ensures outcome.Numbered? ==>
        Names(stages) == Numbering(dependencies, old(Names(stages))) && numInitStages == |stages|
      ensures outcome.Numbered? ==> forall i :: 0 <= i < |stages| ==> stages[i].number == i
      ensures outcome.Numbered? ==> forall a, b :: a in stages && b in stages && (a.name, b.name) in dependencies ==>
        b.number < a.number
      ensures outcome.Numbered? && Legal(dependencies, old(Names(stages)), old(Names(stages))) ==>
        Names(stages) == old(Names(stages))
      ensures forall s :: s in stages <==> s in old(stages)
      ensures outcome.Circle? ==>
        stages == old(stages) && numInitStages == |Numbering(dependencies, Names(stages))| < |stages|
      ensures outcome.UnknownStage? ==> stages == old(stages) && numInitStages == old(numInitStages)
    {
      Reset();
      outcome := LinkStages();
      if outcome.UnknownStage? {
        return;
      }
      ghost var done;
      outcome, done := NumberStages();
      if outcome.Numbered? {
        ghost var names := Names(stages);
        SortStages(done);
        if Legal(dependencies, names, names) {
          LegalIsStable(dependencies, names);
        }
        forall a, b | a in stages && b in stages && (a.name, b.name) in dependencies ensures b.number < a.number {
          NumbersDescend(done, names, a, b);
        }
      }
    }

    lemma NumbersDescend(done: seq<string>, names: seq<string>, a: InitStage, b: InitStage)
      requires Distinct(done) && Names(stages) == done && forall i :: 0 <= i < |stages| ==> stages[i].number == i
      requires Legal(dependencies, done, names) && a in stages && b in stages && (a.name, b.name) in dependencies
      ensures b.number < a.number
    {
      var i :| 0 <= i < |stages| && stages[i] == a;
      var j :| 0 <= j < |stages| && stages[j] == b;
      assert done[i] == a.name && done[j] == b.name;
      StepDown(dependencies, done, names, a.name, b.name);
    }

    /** Passes over the stages until all have numbers or a pass gives none. */
    method NumberStages() returns (outcome: Outcome, ghost done: seq<string>)
      requires Valid() && Linked(|dependencies|) && Known(dependencies, Names(stages))
      requires forall s :: s in stages ==> s.number == -1
      modifies this`numInitStages, stages`number
      ensures done == Numbering(dependencies, Names(stages)) && Counted(done) &&
        Legal(dependencies, done, Names(stages))
      ensures outcome == if Acyclic(dependencies) then Numbered else Circle
      ensures |done| == |stages| <==> outcome.Numbered?
      ensures outcome.Numbered? ==> forall n :: n in Names(stages) ==> n in done
      ensures |done| <= |stages|
    {
      numInitStages := 0;
      ghost var names := Names(stages);
      done := [];
      assert Counted(done);
      NumberedIffAcyclic(dependencies, names);
      hide Linked, Acyclic, Legal, Pass, Passes, Known;
      while numInitStages < |stages|
        invariant Counted(done) && Linked(|dependencies|) && Legal(dependencies, done, names) && |done| <= |names|
        invariant Passes(dependencies, done, names) == Numbering(dependencies, names)
        decreases |stages| - numInitStages
      {
        PassOnce(dependencies, done, names);
        var progress := OnePass(done);
        done := Pass(dependencies, done, names);
        if !progress {
          return Circle, done;
        }
      }
      AllDone(dependencies, done, names);
      outcome := Numbered;
    }

    /** Numbers are assigned on first use; a failure to do so is reported, that time. */
    method GetNumInitStages() returns (outcome: Outcome, n: int)
      requires Valid()
      modifies this`numInitStages, this`stages, stages
      ensures Valid() && n == numInitStages && forall s :: s in stages <==> s in old(stages)
      ensures old(numInitStages) != -1 ==> outcome.Numbered? && n == old(numInitStages) && stages == old(stages)
      ensures old(numInitStages) == -1 ==> outcome.UnknownStage? == !old(Known(dependencies, Names(stages)))
      ensures old(numInitStages) == -1 && !outcome.UnknownStage? ==> (outcome.Numbered? <==> Acyclic(dependencies))
      ensures old(numInitStages) == -1 && outcome.Numbered? ==> n == |stages|
      ensures outcome.Circle? ==> n == |Numbering(dependencies, Names(stages))| < |stages| && stages == old(stages)
      ensures outcome.UnknownStage? ==> n == -1 && stages == old(stages)
    {
      outcome := Numbered;
      if numInitStages == -1 {
        outcome := AssignInitStageNumbers();
      }
      n := numInitStages;
    }

    /**
     * Asking again after a circle reports success, with the number of stages outside of it: the number is the one of
     * all stages if and only if there is no circle.
     */
    method AskTwice() returns (first: Outcome, second: Outcome, n: int)
      requires Valid() && numInitStages == -1 && Known(dependencies, Names(stages))
      modifies this`numInitStages, this`stages, stages
      ensures first.Numbered? <==> Acyclic(dependencies)
      ensures second.Numbered? && (n == |stages| <==> Acyclic(dependencies))
    {
      hide *;
      first, n := GetNumInitStages();
      assert forall i :: 0 <= i < |stages| ==> stages[i] in old(stages);
      second, n := GetNumInitStages();
    }

    /** For instance, a stage that depends on itself is not numbered, and the second call does not tell. */
    static method AskForCircle() returns (first: Outcome, second: Outcome, n: int)
      ensures first == Circle && second == Numbered && n == 0
    {
      var registry := new InitStageRegistry();
      var stage := new InitStage("a");
      registry.AddInitStage(stage);
      registry.AddInitStageDependency("a", "a");
      assert Names(registry.stages) == ["a"];
      OwnCircle(registry.dependencies, "a");
      first, n := registry.GetNumInitStages();
      second, n := registry.GetNumInitStages();
    }
  }
}
