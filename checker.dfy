/** `canExecuteMainClass`: can the main class run from the given jars?
    Every jar must exist, the main class must be among the available
    classes, and so must every cleaned name of its dependency closure. */
module Checker {
  import opened Names
  import opened Classifier
  import opened Archive
  import opened Visitor
  import opened Resolver

  /** The answer `canExecuteMainClass` gives. */
  ghost predicate CanExecute(mainClassName: string, jars: seq<Jar>)
    ensures CanExecute(mainClassName, jars) ==> '/' !in mainClassName
  {
    && AllExist(jars)
    && mainClassName in AvailableClasses(jars)
    && Cleaned(Closure(jars, mainClassName)) <= AvailableClasses(jars)
  }

  /** `canExecuteMainClass`: fills the available-class set jar by jar,
      giving up at the first jar that does not exist, checks the main
      class, computes the required classes, and gives up at the first one
      that is not available. */
  method CanExecuteMainClass(mainClassName: string, jars: seq<Jar>) returns (ok: bool)
    ensures ok <==> CanExecute(mainClassName, jars)
    ensures (exists i :: 0 <= i < |jars| && !jars[i].fileExists) ==> !ok
    ensures mainClassName !in AvailableClasses(jars) ==> !ok
  {
    var availableClasses: set<string> := {};
    var i := 0;
    while i < |jars|
      invariant 0 <= i <= |jars|
      invariant AllExist(jars[..i])
      invariant availableClasses == AvailableClasses(jars[..i])
    {
      if !jars[i].fileExists {
        return false;
      }
      var entries := jars[i].entries;
      var pending := entries.Keys;
      while pending != {}
        invariant pending <= entries.Keys
        invariant availableClasses == AvailableClasses(jars[..i]) +
          set e | e in entries.Keys - pending && IsClassEntry(e) :: ClassNameFromEntry(e)
        decreases |pending|
      {
        var entryName :| entryName in pending;
        if EndsWith(entryName, ".class") {
          availableClasses := availableClasses + {ClassNameFromEntry(entryName)};
        }
        pending := pending - {entryName};
      }
      assert entries.Keys - pending == entries.Keys;
      assert jars[..i + 1][..i] == jars[..i];
      i := i + 1;
    }
    assert jars[..i] == jars;

    if mainClassName !in availableClasses {
      return false;
    }

    var requiredClasses := AnalyzeDependencies(mainClassName, jars);

    var pending := requiredClasses;
    while pending != {}
      invariant pending <= requiredClasses
      invariant requiredClasses - pending <= availableClasses
      decreases |pending|
    {
      var requiredClass :| requiredClass in pending;
      if requiredClass !in availableClasses {
        return false;
      }
      pending := pending - {requiredClass};
    }
    return true;
  }

  lemma AppendJar(jars: seq<Jar>, extra: Jar, className: string)
    ensures AvailableClasses(jars + [extra]) == AvailableClasses(jars) + JarClassNames(extra)
    ensures Refs(jars + [extra], className) == Refs(jars, className) + JarRefs(extra, className)
  {
    assert (jars + [extra])[..|jars|] == jars;
  }

  /** A main class whose every entry mentions only platform classes and
      itself (through its own internal name `self`, as an access to its own
      fields or methods does) runs whenever its jars exist and list it. */
  lemma PlatformOnlyMainClassRuns(mainClassName: string, jars: seq<Jar>, self: string)
    requires AllExist(jars)
    requires mainClassName in AvailableClasses(jars)
    requires forall i, x ::
               (0 <= i < |jars| && EntryPath(mainClassName) in jars[i].entries
                && Mentions(jars[i].entries[EntryPath(mainClassName)], x)) ==> IsJavaStandardClass(x) || x == self
    requires ClassName(self) == mainClassName
    requires !Occurs("[]", mainClassName)
    ensures CanExecute(mainClassName, jars)
  {
    SelfAndPlatformRefs(jars, mainClassName, self);
    ClosureWithinSelf(jars, mainClassName);
    CleanedWithinSelf(Closure(jars, mainClassName), mainClassName);
  }

  lemma CleanedWithinSelf(closure: set<string>, mainClassName: string)
    requires closure <= {mainClassName}
    requires !Occurs("[]", mainClassName)
    ensures Cleaned(closure) <= {mainClassName}
  {
    DeleteAllAbsent(mainClassName, "[]");
  }

  /** A direct reference of the main class whose base name is neither
      standard nor available makes the check fail. */
  lemma MissingReferenceFails(mainClassName: string, jars: seq<Jar>, missing: string)
    requires missing in Refs(jars, mainClassName)
    requires !IsJavaStandardClass(BaseClass(missing))
    requires BaseClass(missing) !in AvailableClasses(jars)
    ensures !CanExecute(mainClassName, jars)
  {
    assert missing in Closure(jars, mainClassName);
    assert BaseClass(missing) in Cleaned(Closure(jars, mainClassName));
  }

  /** Adding an existing jar that holds neither the main class nor any
      class of its closure keeps a successful check successful. */
  lemma AddingUnrelatedJarKeepsSuccess(mainClassName: string, jars: seq<Jar>, extra: Jar)
    requires CanExecute(mainClassName, jars)
    requires extra.fileExists
    requires EntryPath(mainClassName) !in extra.entries
    requires forall n :: n in Closure(jars, mainClassName) ==> EntryPath(n) !in extra.entries
    ensures CanExecute(mainClassName, jars + [extra])
  {
    var more := jars + [extra];
    var closure := Closure(jars, mainClassName);
    AppendJar(jars, extra, mainClassName);
    forall n | n in closure ensures Refs(more, n) == Refs(jars, n) {
      AppendJar(jars, extra, n);
    }
    assert IsClosed(more, mainClassName, closure);
    forall s | IsClosed(more, mainClassName, s) ensures closure <= s {
      forall n | n in s ensures Refs(jars, n) <= s {
        AppendJar(jars, extra, n);
      }
      assert IsClosed(jars, mainClassName, s);
    }
    ClosureUnique(more, mainClassName, closure);
  }

  /** Facts about the concrete names used below. */
  lemma ExampleNames()
    ensures EntryPath("X") == "X.class"
    ensures ClassNameFromEntry("X.class") == "X"
    ensures ClassName("Y") == "Y"
    ensures BaseClass("Y") == "Y"
    ensures !IsJavaStandardClass("Y")
  {
    ReplaceCharAbsent("X", '.', '/');
    ReplaceCharAbsent("X", '/', '.');
    ReplaceCharAbsent("Y", '/', '.');
    assert !Occurs(".class", "X");
    EntryNameMatchesClassName("X");
    assert !Occurs("[]", "Y");
    DeleteAllAbsent("Y", "[]");
  }

  /** Jar `X.class` with no references: `X` runs from it alone. */
  lemma SingleCopyRuns()
    ensures CanExecute("X", [Jar(true, map["X.class" := ClassSummary(None, [], [])])])
  {
    var jarA := Jar(true, map["X.class" := ClassSummary(None, [], [])]);
    ExampleNames();
    assert JarClassNames(jarA) == {"X"};
    assert [jarA][..0] == [];
    assert AvailableClasses([jarA]) == {"X"};
    assert Refs([jarA], "X") == {};
    ClosureWithoutRefs([jarA], "X");
  }

  /** The check is not monotone in the jars: because a class is read from
      every jar that holds it, a second copy of `X` whose super class `Y`
      is nowhere turns the success above into failure. */
  lemma SecondCopyBreaksSuccess()
    ensures !CanExecute("X", [Jar(true, map["X.class" := ClassSummary(None, [], [])]),
                              Jar(true, map["X.class" := ClassSummary(Some("Y"), [], [])])])
  {
    var extended := ClassSummary(Some("Y"), [], []);
    var jarA := Jar(true, map["X.class" := ClassSummary(None, [], [])]);
    var jarB := Jar(true, map["X.class" := extended]);
    ExampleNames();
    assert JarClassNames(jarA) == {"X"};
    assert JarClassNames(jarB) == {"X"};
    assert [jarA][..0] == [];
    AppendJar([jarA], jarB, "X");
    assert AvailableClasses([jarA, jarB]) == {"X"};
    assert ClassRefs(extended) == {"Y"};
    assert Refs([jarA, jarB], "X") == {"Y"};
    MissingReferenceFails("X", [jarA, jarB], "Y");
  }

  /** An enum's `values()` calls `clone` on its own array type, so the
      method owner is the descriptor `[LE;`. The model keeps that
      descriptor as it is (array descriptors are not converted), so it is
      required and never available, and the answer is false. */
  lemma ArrayOwnerIsRequired()
    ensures !CanExecute("E", [Jar(true, map["E.class" := ClassSummary(None, [], [MethodInsn("[LE;")])])])
  {
    var jar := Jar(true, map["E.class" := ClassSummary(None, [], [MethodInsn("[LE;")])]);
    DescriptorIsKeptRaw();
    DescriptorIsReferenced();
    OnlyEnumIsAvailable();
    MissingReferenceFails("E", [jar], "[LE;");
  }

  lemma DescriptorIsKeptRaw()
    ensures ClassName("[LE;") == "[LE;"
    ensures !IsJavaStandardClass("[LE;")
    ensures BaseClass("[LE;") == "[LE;"
  {
    var descriptor := "[LE;";
    ReplaceCharAbsent(descriptor, '/', '.');
    forall i | 0 <= i <= |descriptor| ensures !("[]" <= descriptor[i..]) {
      if i < |descriptor| - 1 {
        assert descriptor[i + 1] != ']';
      }
    }
    DeleteAllAbsent(descriptor, "[]");
  }

  lemma DescriptorIsReferenced()
    ensures "[LE;" in Refs([Jar(true, map["E.class" := ClassSummary(None, [], [MethodInsn("[LE;")])])], "E")
  {
    var summary := ClassSummary(None, [], [MethodInsn("[LE;")]);
    var jar := Jar(true, map["E.class" := summary]);
    DescriptorIsKeptRaw();
    ReplaceCharAbsent("E", '.', '/');
    assert EntryPath("E") == "E.class";
    assert summary.code[0] in summary.code && Operand(summary.code[0]) == "[LE;";
    ClassRefsExact(summary, "[LE;");
    assert [jar][..0] == [];
  }

  lemma OnlyEnumIsAvailable()
    ensures AvailableClasses([Jar(true, map["E.class" := ClassSummary(None, [], [MethodInsn("[LE;")])])]) == {"E"}
  {
    var jar := Jar(true, map["E.class" := ClassSummary(None, [], [MethodInsn("[LE;")])]);
    ReplaceCharAbsent("E", '/', '.');
    assert !Occurs(".class", "E");
    EntryNameMatchesClassName("E");
    assert "E" + ".class" == "E.class";
    assert ClassNameFromEntry("E.class") == "E";
    assert IsClassEntry("E.class");
    assert JarClassNames(jar) == {"E"};
    assert [jar][..0] == [];
  }
}
