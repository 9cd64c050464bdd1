# Dependency checker model

This project models `GradleDependencyChecker`, a tool that decides whether a main class can run from a given list of jar files. It does three things:

- It builds the set of class names available in the jars.
- It walks the classes the main class refers to, transitively. The references are the super class, the interfaces, field and method owners, and type-instruction operands. Platform classes are skipped.
- It answers true only when every jar exists, the main class is available, and every cleaned required name is available.

The model has six modules:

- `Names` covers the string conversions between entry paths, internal (slash) names and dotted names.
- `Classifier` covers the platform-class test.
- `Archive` covers jars as values and the available-class set.
- `Visitor` covers the ASM visitor. It writes into a mutable name set that it shares with the resolver.
- `Resolver` covers the depth-first walk over the two shared sets, the cleaning step and `analyzeDependencies`.
- `Checker` covers `canExecuteMainClass`.

The walk is proved against an independent specification. The specification defines `Closure` as the least set that holds the main class's references and every reference of its own members. `Closure` is computed by Kleene iteration. The method's result equals it whatever order the hash sets yield their elements in.

`collectDependenciesRecursively` reads a class from every jar that holds it (lines 102-113), so the references of all copies are merged. This model follows that:

- `Checker.SecondCopyBreaksSuccess` shows that adding a second copy of a class can turn `true` into `false`.
- `Checker.AddingUnrelatedJarKeepsSuccess` states the guarantee that does hold.

## Model

| member | source | states |
|---|---|---|
| Names.ReplaceChar | src/main/java/com/interships/GradleDependencyChecker.java:72 | `String.replace(char, char)`: same length; every `from` becomes `to`; every other character stays in place |
| Names.DeleteAll | src/main/java/com/interships/GradleDependencyChecker.java:72 | `String.replace(target, "")` never lengthens the text and introduces no new character |
| Names.ClassNameFromEntry | src/main/java/com/interships/GradleDependencyChecker.java:71-73 | the name recorded for an entry has no `/` and is no longer than the entry path |
| Names.EntryPath | src/main/java/com/interships/GradleDependencyChecker.java:104 | the looked-up entry path ends in `.class`, is six characters longer than the name, and has no `.` before the suffix |
| Names.ClassName | src/main/java/com/interships/GradleDependencyChecker.java:129 | ASM's dotted name of a plain internal name: same length, no `/`, and every other character kept |
| Names.EntryPathRoundTrip | src/main/java/com/interships/GradleDependencyChecker.java:104 | a dotted name without `/` and without `.class` inside is recovered by `classNameFromEntry` from the path it is looked up under |
| Names.EntryNameMatchesClassName | src/main/java/com/interships/GradleDependencyChecker.java:71-73 | the available name recorded for entry `x.class` is the name the visitor records for a reference to `x`, provided that dotted name holds no `.class` |
| Names.EntryPathInjective | src/main/java/com/interships/GradleDependencyChecker.java:104 | two slash-free names that are looked up under the same entry path are equal |
| Names.DropClassOccurrence | src/main/java/com/interships/GradleDependencyChecker.java:72 | deleting `.class` keeps a prefix that holds no `.class` and drops exactly the occurrence that follows it |
| Names.DeleteAllAbsent | src/main/java/com/interships/GradleDependencyChecker.java:88 | deleting a target that does not occur leaves the text unchanged |
| Names.ClassesSegmentIsCut | src/main/java/com/interships/GradleDependencyChecker.java:72 | a class in a package segment `classes` is recorded as available under a different name (`p.classes.c` becomes `pes.c`) from the one it is looked up by |
| Classifier.IsPrimitiveType | src/main/java/com/interships/GradleDependencyChecker.java:170-175 | membership in the eighteen listed names, none of which is written in slash form |
| Classifier.IsJavaStandardClass | src/main/java/com/interships/GradleDependencyChecker.java:166-168 | a name without `/` is standard only if it is one of the listed names; the package prefixes need the slash form |
| Classifier.ListedNameShape | src/main/java/com/interships/GradleDependencyChecker.java:170-175 | every listed primitive or boxed name is either free of dots or begins with `java.` |
| Classifier.DottedNameExemptOnlyIfListed | src/main/java/com/interships/GradleDependencyChecker.java:166-168 | on a name without `/`, the platform test holds exactly when the name is one of the eighteen listed names |
| Classifier.DottedExemptionImpliesInternal | src/main/java/com/interships/GradleDependencyChecker.java:166-175 | for an internal name without dots, the dotted form is a platform class only if the internal name already was one |
| Archive.JarClassNames | src/main/java/com/interships/GradleDependencyChecker.java:41-45 | the names one jar contributes never contain `/` |
| Archive.IsClassEntry | src/main/java/com/interships/GradleDependencyChecker.java:43 | an entry counts as a class exactly when it is some stem followed by `.class` |
| Archive.AvailableClasses | src/main/java/com/interships/GradleDependencyChecker.java:35-46 | the available-class set never contains a name with `/` |
| Archive.AvailableClassesMembership | src/main/java/com/interships/GradleDependencyChecker.java:35-46 | a name is available exactly when some jar has a `.class` entry that converts to it |
| Archive.HeldClassIsAvailable | src/main/java/com/interships/GradleDependencyChecker.java:102-105 | a class the resolver finds in some jar is also in the available-class set, provided its name has no `/` and no `.class` inside |
| Visitor.Kept | src/main/java/com/interships/GradleDependencyChecker.java:144-146 | one callback adds nothing exactly when the name is a platform class, and otherwise adds only its dotted form |
| Visitor.ClassRefs | src/main/java/com/interships/GradleDependencyChecker.java:126-161 | the names one visit adds never contain `/` |
| Visitor.ClassRefsExact | src/main/java/com/interships/GradleDependencyChecker.java:126-161 | a name is added by a visit exactly when it is the dotted form of a non-platform name that the class mentions as super class, interface or instruction operand |
| Visitor.PlatformOnlyClassAddsNothing | src/main/java/com/interships/GradleDependencyChecker.java:128-135 | a class mentioning only platform names (or with no super name) adds nothing |
| Visitor.NameSet.constructor | src/main/java/com/interships/GradleDependencyChecker.java:76-77 | a new shared set is empty |
| Visitor.DependencyClassVisitor.constructor | src/main/java/com/interships/GradleDependencyChecker.java:121-124 | the visitor writes into the very set it is given |
| Visitor.DependencyClassVisitor.Visit | src/main/java/com/interships/GradleDependencyChecker.java:126-137 | the shared set grows by the kept super name and kept interfaces, and by nothing else |
| Visitor.DependencyClassVisitor.VisitFieldInsn | src/main/java/com/interships/GradleDependencyChecker.java:142-147 | the shared set grows by the kept field owner only |
| Visitor.DependencyClassVisitor.VisitMethodInsn | src/main/java/com/interships/GradleDependencyChecker.java:149-154 | the shared set grows by the kept method owner only |
| Visitor.DependencyClassVisitor.VisitTypeInsn | src/main/java/com/interships/GradleDependencyChecker.java:156-161 | the shared set grows by the kept type operand only |
| Visitor.Dispatch | src/main/java/com/interships/GradleDependencyChecker.java:140-163 | handing one instruction to the callback of its kind adds exactly that instruction's kept operand |
| Visitor.Accept | src/main/java/com/interships/GradleDependencyChecker.java:106-107 | reading one class adds exactly that class's references to the shared set |
| Resolver.RefsExact | src/main/java/com/interships/GradleDependencyChecker.java:102-113 | a name is a reference of a class exactly when some jar holds the class at its entry path and that copy refers to the name |
| Resolver.JarRefs | src/main/java/com/interships/GradleDependencyChecker.java:102-107 | a jar without the class's entry path contributes nothing; what it contributes is in dotted form |
| Resolver.Refs | src/main/java/com/interships/GradleDependencyChecker.java:102-113 | the references merged over all jars are all in dotted form |
| Resolver.UnheldRefersToNothing | src/main/java/com/interships/GradleDependencyChecker.java:102-105 | a class no jar holds contributes no references |
| Resolver.RefsOfEmptyCopies | src/main/java/com/interships/GradleDependencyChecker.java:102-113 | a class every copy of which refers to nothing has no references |
| Resolver.PlatformOnlyClassRefersToNothing | src/main/java/com/interships/GradleDependencyChecker.java:102-113 | a class whose every copy mentions only platform names has no references |
| Resolver.SelfAndPlatformRefs | src/main/java/com/interships/GradleDependencyChecker.java:102-113 | a class whose every copy mentions only platform names and itself refers to nothing but itself |
| Resolver.Kleene | src/main/java/com/interships/GradleDependencyChecker.java:96-116 | iterating from below the closure ends at a set that is closed under references and below every closed set |
| Resolver.Closure | src/main/java/com/interships/GradleDependencyChecker.java:75-79 | the dependency closure is closed, is the least closed set, and holds only referenced names |
| Resolver.ClosureUnique | src/main/java/com/interships/GradleDependencyChecker.java:96-116 | any set that is closed and below every closed set is the closure |
| Resolver.ClosureWithoutRefs | src/main/java/com/interships/GradleDependencyChecker.java:102-113 | a main class with no references has an empty closure |
| Resolver.ClosureWithinSelf | src/main/java/com/interships/GradleDependencyChecker.java:96-116 | a class that refers to nothing but itself needs at most itself |
| Resolver.ClosureOfCycle | src/main/java/com/interships/GradleDependencyChecker.java:96-116 | the closure of two classes that refer only to each other is both of them |
| Resolver.CollectDependenciesRecursively | src/main/java/com/interships/GradleDependencyChecker.java:96-116 | a visited class changes nothing. An unvisited class is marked visited, and the visited set gains nothing but that class and names now in the dependency set; an unvisited class no jar holds adds only itself. Every class visited during the call has all its references in the dependency set. Only referenced names are added, and the set stays below the closure |
| Resolver.CollectFromEntry | src/main/java/com/interships/GradleDependencyChecker.java:105-112 | reading one jar's copy adds its references; recursing over a snapshot of the set leaves every dependency visited, visits nothing outside the dependency set, and gives every class visited during the call all its references in the set |
| Resolver.Cleaned | src/main/java/com/interships/GradleDependencyChecker.java:84-94 | no cleaned name is a platform class |
| Resolver.BaseClass | src/main/java/com/interships/GradleDependencyChecker.java:88 | deleting `[]` never lengthens a name and introduces no new character |
| Resolver.CleanedNoLarger | src/main/java/com/interships/GradleDependencyChecker.java:84-94 | cleaning never yields more names than it receives |
| Resolver.CleanedKeepsPlainNames | src/main/java/com/interships/GradleDependencyChecker.java:88-91 | names without `[]` that are not platform classes pass through cleaning unchanged |
| Resolver.CleanDependencyList | src/main/java/com/interships/GradleDependencyChecker.java:84-94 | the loop yields the base name of every dependency that is not a platform class, whatever the iteration order |
| Resolver.AnalyzeDependencies | src/main/java/com/interships/GradleDependencyChecker.java:75-82 | the required classes are the cleaned dependency closure of the main class |
| Checker.CanExecuteMainClass | src/main/java/com/interships/GradleDependencyChecker.java:31-69 | true exactly when every jar exists, the main class is available, and every cleaned name of its closure is available; a missing jar or an unavailable main class gives false |
| Checker.CanExecute | src/main/java/com/interships/GradleDependencyChecker.java:31-69 | a main class given in slash form can never run, since every available name is dotted |
| Checker.AppendJar | src/main/java/com/interships/GradleDependencyChecker.java:35-46 | appending a jar adds its class names to the available set and its copy's references to a class's references |
| Checker.PlatformOnlyMainClassRuns | src/main/java/com/interships/GradleDependencyChecker.java:55-68 | an available main class whose every copy mentions only platform names and itself (as accesses to its own fields and methods do), and whose name has no `[]`, can run when all jars exist |
| Checker.MissingReferenceFails | src/main/java/com/interships/GradleDependencyChecker.java:60-66 | a direct reference whose base name is neither a platform class nor available makes the answer false |
| Checker.AddingUnrelatedJarKeepsSuccess | src/main/java/com/interships/GradleDependencyChecker.java:31-69 | adding an existing jar that holds neither the main class nor any class of its closure keeps a true answer true |
| Checker.SingleCopyRuns | src/main/java/com/interships/GradleDependencyChecker.java:102-113 | a jar holding only `X.class` with no references lets `X` run |
| Checker.SecondCopyBreaksSuccess | src/main/java/com/interships/GradleDependencyChecker.java:102-113 | adding a second jar whose copy of `X` extends an absent `Y` makes the answer false, because every copy of a class is read |
| Checker.ArrayOwnerIsRequired | src/main/java/com/interships/GradleDependencyChecker.java:149-154 | an enum whose `values()` calls `clone` on its own array type (method owner `[LE;`) is answered false, because the raw descriptor is required and never available |

## Left out

- `main` is not modelled: its argument parsing, usage message and result printing are I/O only.
- `System.out.println` diagnostics and `printStackTrace` are not modelled.
- The file system and `JarFile` are not modelled. Each jar is a value with a `fileExists` flag and a map from entry paths to class summaries. Unreadable or corrupt archives and the `IOException`s they raise are not modelled.
- `Resolver.AnalyzeDependencies` and `Resolver.CollectDependenciesRecursively` require every jar to exist. In the source they are only reached after `canExecuteMainClass` has checked that; a file deleted between the two reads is not modelled.
- Class-file decoding by ASM is not modelled. A class is abstracted as the calls the visitor overrides: the super name, the interfaces, and the field, method and type instructions in order. Malformed class files are not modelled, and neither are annotations, signatures, descriptors or the `ldc`, `invokedynamic` and `multianewarray` callbacks, which the visitor does not override.
- Names.ClassName: models `Type.getObjectType(n).getClassName()` for plain internal names only. Array descriptors are not converted: `[LE;` stays `[LE;` instead of becoming `E[]`. `visitTypeInsn` receives such descriptors, for example for `anewarray` of an array type. `visitMethodInsn` receives them as owners too: a call to `clone()` on an array, which the `values()` method of every compiled enum makes, has owner `[LE;`. The model keeps the raw descriptor as a required name, and no jar provides it. So where the source answers true (`getClassName` gives `E[]`, and line 88 strips it to `E`), the model answers false; `Checker.ArrayOwnerIsRequired` shows this for an enum `E`. For the same reason the `[]` stripping at line 88 never applies to a name the visitor took from a real class file.
- Hash-set iteration order is not fixed. The loops pick elements by nondeterministic choice, and every result is proved for all orders.
- Stack overflow from deep recursion, and concurrent modification of the jars, are not modelled.
- `GradleDependencyCheckerTest` is not part of this model.
