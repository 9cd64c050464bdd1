/** The platform-class classifier (`isJavaStandardClass`,
    `isPrimitiveType`): a fixed list of package prefixes, matched against the
    slash form, and a fixed set of eighteen names. */
module Classifier {
  import opened Names

  /** The nine primitive keywords and nine dotted `java.lang` names that
      `isPrimitiveType` exempts. */
  const PrimitiveTypeNames: set<string> := {
    "boolean", "char", "byte", "short", "int", "long", "float", "double", "void",
    "java.lang.String", "java.lang.Integer", "java.lang.Double", "java.lang.Float",
    "java.lang.Boolean", "java.lang.Character", "java.lang.Byte", "java.lang.Short",
    "java.lang.Long"
  }

  /** No listed name is written in slash form. */
  predicate IsPrimitiveType(className: string)
    ensures IsPrimitiveType(className) ==> '/' !in className
  {
    className in PrimitiveTypeNames
  }

  /** Exempt names: anything under `java/`, `javax/` or `jdk/` in slash
      form, and the eighteen listed names. */
  predicate IsJavaStandardClass(className: string)
    ensures IsJavaStandardClass(className) ==> '/' in className || IsPrimitiveType(className)
  {
    assert |className| > 3 ==> className[3] in className;
    assert |className| > 4 ==> className[4] in className;
    assert |className| > 5 ==> className[5] in className;
    || StartsWith(className, "java/")
    || StartsWith(className, "javax/")
    || StartsWith(className, "jdk/")
    || IsPrimitiveType(className)
  }

  /** Every listed name is either a keyword without a dot or a dotted
      name in package `java.`. */
  lemma ListedNameShape(className: string)
    requires IsPrimitiveType(className)
    ensures '.' !in className || (|className| > 5 && className[..5] == "java.")
  {
  }

  /** The package prefixes are written with slashes, so on a dotted name
      (as `cleanDependencyList` passes it) only the eighteen listed names
      count as standard. */
  lemma DottedNameExemptOnlyIfListed(className: string)
    requires '/' !in className
    ensures IsJavaStandardClass(className) <==> IsPrimitiveType(className)
  {
    if |className| > 3 {
      assert className[3] in className;
    }
    if |className| > 4 {
      assert className[4] in className;
    }
    if |className| > 5 {
      assert className[5] in className;
    }
  }

  /** For an internal name without dots (the JVM forbids dots there), the
      dotted form is exempt only if the slash form already was: the
      second filter in `cleanDependencyList` never drops a name the
      visitor kept, unless array brackets were stripped first. */
  lemma DottedExemptionImpliesInternal(internalName: string)
    requires '.' !in internalName
    ensures IsJavaStandardClass(ClassName(internalName)) ==> IsJavaStandardClass(internalName)
  {
    var dotted := ClassName(internalName);
    if IsJavaStandardClass(dotted) {
      DottedNameExemptOnlyIfListed(dotted);
      ListedNameShape(dotted);
      if '.' in dotted {
        forall i | 0 <= i < 4 ensures internalName[i] == dotted[i] {
          assert dotted[i] in "java";
        }
        assert internalName[4] in internalName;
        assert internalName[4] == '/';
        assert internalName[..5] == "java/";
      } else {
        forall i | 0 <= i < |internalName| ensures internalName[i] == dotted[i] {
          assert dotted[i] in dotted;
        }
        assert internalName == dotted;
      }
    }
  }
}
