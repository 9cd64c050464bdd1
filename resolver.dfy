/** The dependency closure: what `collectDependenciesRecursively` computes,
    first as a specification (the least set of names closed under the
    jars' references), then as the source's depth-first walk over two
    shared mutable sets, proved to compute exactly that set. */
module Resolver {
  import opened Names
  import opened Classifier
  import opened Archive
  import opened Visitor

  /** References one jar contributes for a class: those of the class's
      entry there, if the jar has one. */
  function JarRefs(jar: Jar, className: string): (refs: set<string>)
    ensures EntryPath(className) !in jar.entries ==> refs == {}
    ensures forall n :: n in refs ==> '/' !in n
  {
    var entryName := EntryPath(className);
    if entryName in jar.entries then ClassRefs(jar.entries[entryName]) else {}
  }

  /** References of a class over all jars that hold it, not only the
      first. */
  function Refs(jars: seq<Jar>, className: string): (refs: set<string>)
    ensures forall n :: n in refs ==> '/' !in n
    decreases |jars|
  {
    if |jars| == 0 then {}
    else Refs(jars[..|jars| - 1], className) + JarRefs(jars[|jars| - 1], className)
  }

  /** Every reference made by any entry of one jar. */
  function EntryRefs(jar: Jar): set<string>
  {
    set e, n | e in jar.entries && n in ClassRefs(jar.entries[e]) :: n
  }

  /** Every reference made by any entry of any jar: a finite bound on
      the names the walk can ever add. */
  function AllRefs(jars: seq<Jar>): set<string>
    decreases |jars|
  {
    if |jars| == 0 then {} else AllRefs(jars[..|jars| - 1]) + EntryRefs(jars[|jars| - 1])
  }

  /** A name refers to `n` exactly when some jar holding it has an entry
      whose visit adds `n`. */
  lemma {:induction false} RefsExact(jars: seq<Jar>, className: string, n: string)
    ensures n in Refs(jars, className) <==>
      exists i :: 0 <= i < |jars| && EntryPath(className) in jars[i].entries
                  && n in ClassRefs(jars[i].entries[EntryPath(className)])
    decreases |jars|
  {
    if |jars| > 0 {
      var init := jars[..|jars| - 1];
      RefsExact(init, className, n);
      if n in Refs(init, className) {
        var i :| 0 <= i < |init| && EntryPath(className) in init[i].entries
                 && n in ClassRefs(init[i].entries[EntryPath(className)]);
        assert jars[i] == init[i];
      }
      if exists i :: 0 <= i < |jars| && EntryPath(className) in jars[i].entries
                     && n in ClassRefs(jars[i].entries[EntryPath(className)]) {
        var i :| 0 <= i < |jars| && EntryPath(className) in jars[i].entries
                 && n in ClassRefs(jars[i].entries[EntryPath(className)]);
        if i < |jars| - 1 {
          assert init[i] == jars[i];
        }
      }
    }
  }

  /** A name that no jar holds refers to nothing. */
  lemma UnheldRefersToNothing(jars: seq<Jar>, className: string)
    requires !HeldAnywhere(jars, className)
    ensures Refs(jars, className) == {}
  {
    forall n ensures n !in Refs(jars, className) {
      RefsExact(jars, className, n);
    }
  }

  /** A class whose every copy adds nothing refers to nothing. */
  lemma {:induction false} RefsOfEmptyCopies(jars: seq<Jar>, className: string)
    requires forall i :: 0 <= i < |jars| && EntryPath(className) in jars[i].entries ==>
               ClassRefs(jars[i].entries[EntryPath(className)]) == {}
    ensures Refs(jars, className) == {}
    decreases |jars|
  {
    if |jars| > 0 {
      var init := jars[..|jars| - 1];
      assert forall i :: 0 <= i < |init| ==> init[i] == jars[i];
      RefsOfEmptyCopies(init, className);
    }
  }

  /** A class whose every copy mentions only platform classes refers to
      nothing. */
  lemma PlatformOnlyClassRefersToNothing(jars: seq<Jar>, className: string)
    requires forall i, x ::
               (0 <= i < |jars| && EntryPath(className) in jars[i].entries
                && Mentions(jars[i].entries[EntryPath(className)], x)) ==> IsJavaStandardClass(x)
    ensures Refs(jars, className) == {}
  {
    var entryName := EntryPath(className);
    forall i | 0 <= i < |jars| && entryName in jars[i].entries
      ensures ClassRefs(jars[i].entries[entryName]) == {}
    {
      PlatformOnlyClassAddsNothing(jars[i].entries[entryName]);
    }
    RefsOfEmptyCopies(jars, className);
  }

  /** A class whose every copy mentions only platform classes and the
      class itself refers to nothing but itself. */
  lemma SelfAndPlatformRefs(jars: seq<Jar>, className: string, self: string)
    requires forall i, x ::
               (0 <= i < |jars| && EntryPath(className) in jars[i].entries
                && Mentions(jars[i].entries[EntryPath(className)], x)) ==> IsJavaStandardClass(x) || x == self
    requires ClassName(self) == className
    ensures Refs(jars, className) <= {className}
  {
    forall n | n in Refs(jars, className) ensures n == className {
      RefsExact(jars, className, n);
      var i :| 0 <= i < |jars| && EntryPath(className) in jars[i].entries
               && n in ClassRefs(jars[i].entries[EntryPath(className)]);
      ClassRefsExact(jars[i].entries[EntryPath(className)], n);
    }
  }

  lemma {:induction false} RefsPrefix(jars: seq<Jar>, k: nat, className: string)
    requires k <= |jars|
    ensures Refs(jars[..k], className) <= Refs(jars, className)
    decreases |jars|
  {
    if k < |jars| {
      var init := jars[..|jars| - 1];
      assert init[..k] == jars[..k];
      RefsPrefix(init, k, className);
    } else {
      assert jars[..k] == jars;
    }
  }

  lemma {:induction false} RefsWithinAllRefs(jars: seq<Jar>, className: string)
    ensures Refs(jars, className) <= AllRefs(jars)
    decreases |jars|
  {
    if |jars| > 0 {
      var last := jars[|jars| - 1];
      RefsWithinAllRefs(jars[..|jars| - 1], className);
      var entryName := EntryPath(className);
      if entryName in last.entries {
        forall n | n in ClassRefs(last.entries[entryName]) ensures n in EntryRefs(last) {
        }
      }
    }
  }

  /** `deps` holds every reference of the main class and of each of its
      own members. */
  ghost predicate IsClosed(jars: seq<Jar>, root: string, deps: set<string>)
  {
    && Refs(jars, root) <= deps
    && forall n :: n in deps ==> Refs(jars, n) <= deps
  }

  /** `deps` lies inside every closed set: each of its names is needed. */
  ghost predicate BelowEveryClosed(jars: seq<Jar>, root: string, deps: set<string>)
  {
    forall s :: IsClosed(jars, root, s) ==> deps <= s
  }

  /** One round of expansion: the main class's references plus those of
      every name found so far. */
  function Step(jars: seq<Jar>, root: string, deps: set<string>): set<string>
  {
    Refs(jars, root) + set n, m | n in deps && m in Refs(jars, n) :: m
  }

  lemma StepProperties(jars: seq<Jar>, root: string, deps: set<string>)
    ensures Refs(jars, root) <= Step(jars, root, deps)
    ensures forall n :: n in deps ==> Refs(jars, n) <= Step(jars, root, deps)
    ensures Step(jars, root, deps) <= AllRefs(jars)
    ensures BelowEveryClosed(jars, root, deps) ==> BelowEveryClosed(jars, root, Step(jars, root, deps))
  {
    var next := Step(jars, root, deps);
    forall n | n in deps ensures Refs(jars, n) <= next {
      forall m | m in Refs(jars, n) ensures m in next {
      }
    }
    RefsWithinAllRefs(jars, root);
    forall m | m in next ensures m in AllRefs(jars) {
      if m !in Refs(jars, root) {
        var n :| n in deps && m in Refs(jars, n);
        RefsWithinAllRefs(jars, n);
      }
    }
    if BelowEveryClosed(jars, root, deps) {
      forall s | IsClosed(jars, root, s) ensures next <= s {
        forall m | m in next ensures m in s {
          if m !in Refs(jars, root) {
            var n :| n in deps && m in Refs(jars, n);
          }
        }
      }
    }
  }

  lemma StepMonotone(jars: seq<Jar>, root: string, small: set<string>, large: set<string>)
    requires small <= large
    ensures Step(jars, root, small) <= Step(jars, root, large)
  {
    StepProperties(jars, root, large);
  }

  lemma {:induction false} SubsetCard(small: set<string>, large: set<string>)
    requires small <= large
    ensures |small| <= |large|
    decreases |small|
  {
    if small != {} {
      var x :| x in small;
      SubsetCard(small - {x}, large - {x});
    }
  }

  /** Kleene iteration from `deps` up to the least closed set. */
  function Kleene(jars: seq<Jar>, root: string, deps: set<string>): (closure: set<string>)
    requires deps <= AllRefs(jars)
    requires deps <= Step(jars, root, deps)
    requires BelowEveryClosed(jars, root, deps)
    ensures IsClosed(jars, root, closure)
    ensures BelowEveryClosed(jars, root, closure)
    ensures closure <= AllRefs(jars)
    decreases |AllRefs(jars) - deps|
  {
    var next := Step(jars, root, deps);
    StepProperties(jars, root, deps);
    if next <= deps then
      deps
    else
      StepMonotone(jars, root, deps, next);
      var m :| m in next && m !in deps;
      SubsetCard(AllRefs(jars) - next, AllRefs(jars) - deps - {m});
      Kleene(jars, root, next)
  }

  /** The dependency closure of a main class: the least set that holds
      the main class's references and the references of each member. */
  function Closure(jars: seq<Jar>, root: string): (closure: set<string>)
    ensures IsClosed(jars, root, closure)
    ensures BelowEveryClosed(jars, root, closure)
    ensures closure <= AllRefs(jars)
  {
    Kleene(jars, root, {})
  }

  /** The closure is the only set that is both closed and below every
      closed set. */
  lemma ClosureUnique(jars: seq<Jar>, root: string, deps: set<string>)
    requires IsClosed(jars, root, deps)
    requires BelowEveryClosed(jars, root, deps)
    ensures deps == Closure(jars, root)
  {
    var closure := Closure(jars, root);
    assert deps <= closure;
    assert closure <= deps;
  }

  /** A main class with no references of its own needs nothing. */
  lemma ClosureWithoutRefs(jars: seq<Jar>, root: string)
    requires Refs(jars, root) == {}
    ensures Closure(jars, root) == {}
  {
    assert IsClosed(jars, root, {});
  }

  /** A class that refers to nothing but itself needs at most itself. */
  lemma ClosureWithinSelf(jars: seq<Jar>, root: string)
    requires Refs(jars, root) <= {root}
    ensures Closure(jars, root) <= {root}
  {
    assert IsClosed(jars, root, {root});
  }

  /** Two classes that refer only to each other: the closure from one of
      them is both of them. */
  lemma ClosureOfCycle(jars: seq<Jar>, a: string, b: string)
    requires Refs(jars, a) == {b}
    requires Refs(jars, b) == {a}
    ensures Closure(jars, a) == {a, b}
  {
    assert IsClosed(jars, a, {a, b});
    forall s | IsClosed(jars, a, s) ensures {a, b} <= s {
      assert b in s;
      assert Refs(jars, b) <= s;
    }
    ClosureUnique(jars, a, {a, b});
  }

  lemma MeasureDecreases(all: set<string>, className: string, dependency: string,
                         before: set<string>, now: set<string>)
    requires className !in before
    requires before + {className} <= now
    requires dependency in all
    ensures |all + {dependency} - now| < |all + {className} - before|
  {
    var start := all + {className} - before;
    assert className in start;
    SubsetCard(all + {dependency} - now, start - {className});
  }

  /** Every name in `names` has all its references in `deps`. */
  ghost predicate Expanded(jars: seq<Jar>, names: set<string>, deps: set<string>)
  {
    forall v :: v in names ==> Refs(jars, v) <= deps
  }

  /** `collectDependenciesRecursively`: marks the class visited, then, in
      every jar holding it, visits that entry. The two sets are shared with
      every nested call. `root` names the main class for the proof only. */
  method CollectDependenciesRecursively(className: string, jars: seq<Jar>,
                                        dependencies: NameSet, visited: NameSet, ghost root: string)
    requires dependencies != visited
    requires AllExist(jars)
    requires dependencies.elems <= AllRefs(jars)
    requires className == root || className in dependencies.elems
    requires BelowEveryClosed(jars, root, dependencies.elems)
    modifies dependencies, visited
    decreases |AllRefs(jars) + {className} - visited.elems|, 1
    ensures old(visited.elems) + {className} <= visited.elems
    ensures visited.elems <= old(visited.elems) + {className} + dependencies.elems
    ensures old(dependencies.elems) <= dependencies.elems <= AllRefs(jars)
    ensures className in old(visited.elems) ==>
      visited.elems == old(visited.elems) && dependencies.elems == old(dependencies.elems)
    ensures className !in old(visited.elems) && !HeldAnywhere(jars, className) ==>
      visited.elems == old(visited.elems) + {className} && dependencies.elems == old(dependencies.elems)
    ensures BelowEveryClosed(jars, root, dependencies.elems)
    ensures dependencies.elems - old(dependencies.elems) <= visited.elems
    ensures Expanded(jars, visited.elems - old(visited.elems), dependencies.elems)
  {
    if className in visited.elems {
      return;
    }
    ghost var visitedAtEntry := visited.elems;
    visited.elems := visited.elems + {className};

    var entryName := EntryPath(className);
    var i := 0;
    while i < |jars|
      invariant 0 <= i <= |jars|
      invariant visitedAtEntry + {className} <= visited.elems
      invariant visited.elems <= visitedAtEntry + {className} + dependencies.elems
      invariant old(dependencies.elems) <= dependencies.elems <= AllRefs(jars)
      invariant BelowEveryClosed(jars, root, dependencies.elems)
      invariant dependencies.elems - old(dependencies.elems) <= visited.elems
      invariant Refs(jars[..i], className) <= dependencies.elems
      invariant Expanded(jars, visited.elems - visitedAtEntry - {className}, dependencies.elems)
      invariant (forall j :: 0 <= j < i ==> entryName !in jars[j].entries) ==>
        visited.elems == visitedAtEntry + {className} && dependencies.elems == old(dependencies.elems)
    {
      assert jars[..i + 1][..i] == jars[..i];
      ghost var dependenciesBefore := dependencies.elems;
      if entryName in jars[i].entries {
        RefsPrefix(jars, i + 1, className);
        ghost var visitedBefore := visited.elems;
        CollectFromEntry(className, jars[i].entries[entryName], jars, dependencies, visited, root, visitedAtEntry);
        assert visited.elems - visitedAtEntry - {className}
            <= (visitedBefore - visitedAtEntry - {className}) + (visited.elems - visitedBefore);
        assert JarRefs(jars[i], className) <= dependencies.elems;
      } else {
        assert JarRefs(jars[i], className) == {};
      }
      assert Refs(jars[..i + 1], className) == Refs(jars[..i], className) + JarRefs(jars[i], className);
      assert Refs(jars[..i], className) <= dependenciesBefore <= dependencies.elems;
      i := i + 1;
    }
    assert jars[..i] == jars;
  }

  /** Lines 105-112: the entry was found in one jar. The visitor adds the
      class's references to the shared set, then the walk recurses over a
      snapshot of the whole set, in whatever order the hash set yields. */
  method CollectFromEntry(className: string, summary: ClassSummary, jars: seq<Jar>,
                          dependencies: NameSet, visited: NameSet,
                          ghost root: string, ghost visitedAtEntry: set<string>)
    requires dependencies != visited
    requires AllExist(jars)
    requires ClassRefs(summary) <= Refs(jars, className)
    requires dependencies.elems <= AllRefs(jars)
    requires className == root || className in dependencies.elems
    requires BelowEveryClosed(jars, root, dependencies.elems)
    requires className !in visitedAtEntry && visitedAtEntry + {className} <= visited.elems
    modifies dependencies, visited
    decreases |AllRefs(jars) + {className} - visitedAtEntry|, 0
    ensures old(visited.elems) <= visited.elems <= old(visited.elems) + dependencies.elems
    ensures old(dependencies.elems) + ClassRefs(summary) <= dependencies.elems <= AllRefs(jars)
    ensures BelowEveryClosed(jars, root, dependencies.elems)
    ensures dependencies.elems <= visited.elems
    ensures Expanded(jars, visited.elems - old(visited.elems), dependencies.elems)
  {
    var visitor := new DependencyClassVisitor(dependencies);
    Accept(summary, visitor);
    RefsWithinAllRefs(jars, className);

    var pending := dependencies.elems;
    while pending != {}
      invariant pending <= dependencies.elems
      invariant old(visited.elems) <= visited.elems <= old(visited.elems) + dependencies.elems
      invariant old(dependencies.elems) + ClassRefs(summary) <= dependencies.elems <= AllRefs(jars)
      invariant BelowEveryClosed(jars, root, dependencies.elems)
      invariant dependencies.elems <= visited.elems + pending
      invariant Expanded(jars, visited.elems - old(visited.elems), dependencies.elems)
      decreases |pending|
    {
      var dependency :| dependency in pending;
      MeasureDecreases(AllRefs(jars), className, dependency, visitedAtEntry, visited.elems);
      ghost var visitedBefore := visited.elems;
      CollectDependenciesRecursively(dependency, jars, dependencies, visited, root);
      assert visited.elems - old(visited.elems)
          <= (visitedBefore - old(visited.elems)) + (visited.elems - visitedBefore);
      pending := pending - {dependency};
    }
  }

  /** The base name `cleanDependencyList` keeps: every `[]` deleted. */
  function BaseClass(dependency: string): (base: string)
    ensures |base| <= |dependency|
    ensures forall c :: c in base ==> c in dependency
  {
    DeleteAll(dependency, "[]")
  }

  /** The cleaned dependency set: base names that are not standard. */
  function Cleaned(dependencies: set<string>): (cleaned: set<string>)
    ensures forall n :: n in cleaned ==> !IsJavaStandardClass(n)
  {
    set d | d in dependencies && !IsJavaStandardClass(BaseClass(d)) :: BaseClass(d)
  }

  lemma CleanedAddOne(dependencies: set<string>, d: string)
    ensures Cleaned(dependencies + {d}) ==
      Cleaned(dependencies) + (if IsJavaStandardClass(BaseClass(d)) then {} else {BaseClass(d)})
  {
  }

  /** Cleaning never produces more names than it is given. */
  lemma {:induction false} CleanedNoLarger(dependencies: set<string>)
    ensures |Cleaned(dependencies)| <= |dependencies|
    decreases |dependencies|
  {
    if dependencies != {} {
      var d :| d in dependencies;
      var rest := dependencies - {d};
      assert dependencies == rest + {d};
      CleanedAddOne(rest, d);
      CleanedNoLarger(rest);
    }
  }

  /** Names without `[]` that are not standard pass through cleaning
      unchanged. */
  lemma CleanedKeepsPlainNames(dependencies: set<string>)
    requires forall d :: d in dependencies ==> !Occurs("[]", d) && !IsJavaStandardClass(d)
    ensures Cleaned(dependencies) == dependencies
  {
    forall d | d in dependencies ensures BaseClass(d) == d {
      DeleteAllAbsent(d, "[]");
    }
  }

  /** `cleanDependencyList`: one pass over the set, in whatever order
      the hash set yields its elements. */
  method CleanDependencyList(dependencies: set<string>) returns (cleaned: set<string>)
    ensures cleaned == Cleaned(dependencies)
  {
    cleaned := {};
    var pending := dependencies;
    while pending != {}
      invariant pending <= dependencies
      invariant cleaned == Cleaned(dependencies - pending)
      decreases |pending|
    {
      var dependency :| dependency in pending;
      CleanedAddOne(dependencies - pending, dependency);
      assert (dependencies - pending) + {dependency} == dependencies - (pending - {dependency});
      var baseClass := DeleteAll(dependency, "[]");
      if !IsJavaStandardClass(baseClass) {
        cleaned := cleaned + {baseClass};
      }
      pending := pending - {dependency};
    }
    assert dependencies - pending == dependencies;
  }

  /** `analyzeDependencies`: the walk from empty sets, then cleaning. */
  method AnalyzeDependencies(className: string, jars: seq<Jar>) returns (required: set<string>)
    requires AllExist(jars)
    ensures required == Cleaned(Closure(jars, className))
  {
    var dependencies := new NameSet();
    var visited := new NameSet();
    CollectDependenciesRecursively(className, jars, dependencies, visited, className);
    assert visited.elems == {className} + dependencies.elems;
    assert IsClosed(jars, className, dependencies.elems);
    ClosureUnique(jars, className, dependencies.elems);
    required := CleanDependencyList(dependencies.elems);
  }
}
