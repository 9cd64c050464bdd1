/** The archive store the checker reads: the jars named on the command
    line, in the caller's order, each either missing on disk or mapping
    entry paths to an abstract summary of the compiled class stored there. */
module Archive {
  import opened Names

  datatype Option<T> = None | Some(value: T)

  /** One instruction callback that the dependency visitor overrides:
      a field access, a method call, or a type instruction (`new`,
      `checkcast`, `instanceof`, `anewarray`), each with its operand in
      slash form. */
  datatype Insn =
    | FieldInsn(owner: string)
    | MethodInsn(owner: string)
    | TypeInsn(operand: string)

  /** What ASM hands the visitor for one class file: the super name (absent
      for `java/lang/Object`), the interface names, and the instruction
      callbacks of all method bodies in order. */
  datatype ClassSummary = ClassSummary(superName: Option<string>, interfaces: seq<string>, code: seq<Insn>)

  /** A jar path: whether a file exists there, and its entries. */
  datatype Jar = Jar(fileExists: bool, entries: map<string, ClassSummary>)

  predicate AllExist(jars: seq<Jar>)
  {
    forall i :: 0 <= i < |jars| ==> jars[i].fileExists
  }

  /** The entries that `canExecuteMainClass` counts as classes. */
  predicate IsClassEntry(entryName: string)
    ensures IsClassEntry(entryName) <==> exists stem :: entryName == stem + ".class"
  {
    assert EndsWith(entryName, ".class") ==> entryName == entryName[..|entryName| - 6] + ".class";
    EndsWith(entryName, ".class")
  }

  /** Names contributed by one jar to the available-class set. */
  function JarClassNames(jar: Jar): (names: set<string>)
    ensures forall n :: n in names ==> '/' !in n
  {
    set e | e in jar.entries && IsClassEntry(e) :: ClassNameFromEntry(e)
  }

  /** The available-class set built from the jars, in order. */
  function AvailableClasses(jars: seq<Jar>): (names: set<string>)
    ensures forall n :: n in names ==> '/' !in n
    decreases |jars|
  {
    if |jars| == 0 then {} else AvailableClasses(jars[..|jars| - 1]) + JarClassNames(jars[|jars| - 1])
  }

  /** True when some jar has an entry at `EntryPath(className)`. */
  predicate HeldAnywhere(jars: seq<Jar>, className: string)
  {
    exists i :: 0 <= i < |jars| && EntryPath(className) in jars[i].entries
  }

  /** A name is available exactly when some jar has a `.class` entry
      whose converted name it is. */
  lemma {:induction false} AvailableClassesMembership(jars: seq<Jar>, className: string)
    ensures className in AvailableClasses(jars) <==>
      exists i, e :: 0 <= i < |jars| && e in jars[i].entries && IsClassEntry(e) && ClassNameFromEntry(e) == className
    decreases |jars|
  {
    if |jars| > 0 {
      var init, last := jars[..|jars| - 1], jars[|jars| - 1];
      AvailableClassesMembership(init, className);
      if className in AvailableClasses(jars) {
        if className in AvailableClasses(init) {
          var i, e :| 0 <= i < |init| && e in init[i].entries && IsClassEntry(e) && ClassNameFromEntry(e) == className;
          assert jars[i] == init[i];
        } else {
          var e :| e in last.entries && IsClassEntry(e) && ClassNameFromEntry(e) == className;
          assert jars[|jars| - 1] == last;
        }
      }
      if exists i, e :: 0 <= i < |jars| && e in jars[i].entries && IsClassEntry(e) && ClassNameFromEntry(e) == className {
        var i, e :| 0 <= i < |jars| && e in jars[i].entries && IsClassEntry(e) && ClassNameFromEntry(e) == className;
        if i < |jars| - 1 {
          assert init[i] == jars[i];
        } else {
          assert className in JarClassNames(last);
        }
      }
    }
  }

  /** A class the resolver finds in a jar (by its entry path) is also in
      the available-class set, provided its name has no `/` and no
      `.class` inside. */
  lemma HeldClassIsAvailable(jars: seq<Jar>, className: string)
    requires '/' !in className && !Occurs(".class", className)
    requires HeldAnywhere(jars, className)
    ensures className in AvailableClasses(jars)
  {
    var i :| 0 <= i < |jars| && EntryPath(className) in jars[i].entries;
    EntryPathRoundTrip(className);
    AvailableClassesMembership(jars, className);
  }
}
