/** `DependencyClassVisitor`: the ASM callbacks that collect the classes a
    class file refers to, skipping platform classes and storing the
    others, dotted, in a set shared with the resolver. */
module Visitor {
  import opened Names
  import opened Classifier
  import opened Archive

  /** What one callback adds for the internal name it is handed. */
  function Kept(internalName: string): (added: set<string>)
    ensures added == {} <==> IsJavaStandardClass(internalName)
    ensures forall n :: n in added ==> n == ClassName(internalName)
  {
    if IsJavaStandardClass(internalName) then {} else {ClassName(internalName)}
  }

  function Operand(insn: Insn): string
  {
    match insn
    case FieldInsn(owner) => owner
    case MethodInsn(owner) => owner
    case TypeInsn(operand) => operand
  }

  /** True when the visitor is handed the internal name `x` for this
      class: as its super name, as an interface, or as an instruction
      operand. */
  predicate Mentions(summary: ClassSummary, x: string)
  {
    || summary.superName == Some(x)
    || x in summary.interfaces
    || exists insn :: insn in summary.code && Operand(insn) == x
  }

  function SuperRefs(superName: Option<string>): set<string>
  {
    if superName.Some? then Kept(superName.value) else {}
  }

  function NameRefs(names: seq<string>): set<string>
  {
    set x | x in names && !IsJavaStandardClass(x) :: ClassName(x)
  }

  function HeaderRefs(superName: Option<string>, interfaces: seq<string>): set<string>
  {
    SuperRefs(superName) + NameRefs(interfaces)
  }

  function CodeRefs(code: seq<Insn>): set<string>
  {
    set insn | insn in code && !IsJavaStandardClass(Operand(insn)) :: ClassName(Operand(insn))
  }

  /** Everything one visit of a class adds to the dependency set. */
  function ClassRefs(summary: ClassSummary): (refs: set<string>)
    ensures forall n :: n in refs ==> '/' !in n
  {
    HeaderRefs(summary.superName, summary.interfaces) + CodeRefs(summary.code)
  }

  /** A visit adds the dotted form of exactly the non-platform names the
      class mentions, whichever callback hands them over. */
  lemma ClassRefsExact(summary: ClassSummary, n: string)
    ensures n in ClassRefs(summary) <==>
      exists x :: Mentions(summary, x) && !IsJavaStandardClass(x) && ClassName(x) == n
  {
    if n in CodeRefs(summary.code) {
      var insn :| insn in summary.code && !IsJavaStandardClass(Operand(insn)) && ClassName(Operand(insn)) == n;
      assert Mentions(summary, Operand(insn));
    } else if n in NameRefs(summary.interfaces) {
      var x :| x in summary.interfaces && !IsJavaStandardClass(x) && ClassName(x) == n;
      assert Mentions(summary, x);
    } else if n in SuperRefs(summary.superName) {
      assert Mentions(summary, summary.superName.value);
    }
    if exists x :: Mentions(summary, x) && !IsJavaStandardClass(x) && ClassName(x) == n {
      var x :| Mentions(summary, x) && !IsJavaStandardClass(x) && ClassName(x) == n;
      if summary.superName == Some(x) {
        assert n in SuperRefs(summary.superName);
      } else if x in summary.interfaces {
        assert n in NameRefs(summary.interfaces);
      } else {
        var insn :| insn in summary.code && Operand(insn) == x;
        assert n in CodeRefs(summary.code);
      }
    }
  }

  /** A class that mentions only platform classes adds nothing; a missing
      super name in particular adds nothing. */
  lemma PlatformOnlyClassAddsNothing(summary: ClassSummary)
    requires forall x :: Mentions(summary, x) ==> IsJavaStandardClass(x)
    ensures ClassRefs(summary) == {}
  {
    forall n ensures n !in ClassRefs(summary) {
      ClassRefsExact(summary, n);
    }
  }

  lemma CodeRefsSnoc(code: seq<Insn>, insn: Insn)
    ensures CodeRefs(code + [insn]) == CodeRefs(code) + Kept(Operand(insn))
  {
    assert forall i :: i in code + [insn] <==> i in code || i == insn;
  }

  /** One more instruction of the code adds its kept operand. */
  lemma CodeRefsStep(code: seq<Insn>, k: nat)
    requires k < |code|
    ensures CodeRefs(code[..k + 1]) == CodeRefs(code[..k]) + Kept(Operand(code[k]))
  {
    assert code[..k + 1] == code[..k] + [code[k]];
    CodeRefsSnoc(code[..k], code[k]);
  }

  lemma NameRefsSnoc(names: seq<string>, x: string)
    ensures NameRefs(names + [x]) == NameRefs(names) + Kept(x)
  {
    assert forall y :: y in names + [x] <==> y in names || y == x;
  }

  /** A mutable set of class names shared by reference, as Java's
      `HashSet<String>` is between the resolver and the visitor. */
  class NameSet {
    var elems: set<string>

    constructor ()
      ensures elems == {}
    {
      elems := {};
    }
  }

  /** The visitor writes into the set it was built with. The three
      instruction callbacks belong, in the source, to the anonymous
      `MethodVisitor` that `visitMethod` returns; it writes into the same
      set. */
  class DependencyClassVisitor {
    const dependencies: NameSet

    constructor (dependencies: NameSet)
      ensures this.dependencies == dependencies
    {
      this.dependencies := dependencies;
    }

    /** `visit`: the super name, when present, and each interface. */
    method Visit(superName: Option<string>, interfaces: seq<string>)
      modifies dependencies
      ensures dependencies.elems == old(dependencies.elems) + HeaderRefs(superName, interfaces)
    {
      if superName.Some? && !IsJavaStandardClass(superName.value) {
        dependencies.elems := dependencies.elems + {ClassName(superName.value)};
      }
      var i := 0;
      while i < |interfaces|
        invariant 0 <= i <= |interfaces|
        invariant dependencies.elems == old(dependencies.elems) + SuperRefs(superName) + NameRefs(interfaces[..i])
      {
        assert interfaces[..i + 1] == interfaces[..i] + [interfaces[i]];
        NameRefsSnoc(interfaces[..i], interfaces[i]);
        if !IsJavaStandardClass(interfaces[i]) {
          dependencies.elems := dependencies.elems + {ClassName(interfaces[i])};
        }
        i := i + 1;
      }
      assert interfaces[..i] == interfaces;
    }

    method VisitFieldInsn(owner: string)
      modifies dependencies
      ensures dependencies.elems == old(dependencies.elems) + Kept(owner)
    {
      if !IsJavaStandardClass(owner) {
        dependencies.elems := dependencies.elems + {ClassName(owner)};
      }
    }

    method VisitMethodInsn(owner: string)
      modifies dependencies
      ensures dependencies.elems == old(dependencies.elems) + Kept(owner)
    {
      if !IsJavaStandardClass(owner) {
        dependencies.elems := dependencies.elems + {ClassName(owner)};
      }
    }

    method VisitTypeInsn(operand: string)
      modifies dependencies
      ensures dependencies.elems == old(dependencies.elems) + Kept(operand)
    {
      if !IsJavaStandardClass(operand) {
        dependencies.elems := dependencies.elems + {ClassName(operand)};
      }
    }
  }

  /** The reader hands one instruction to the callback of its kind. */
  method Dispatch(insn: Insn, visitor: DependencyClassVisitor)
    modifies visitor.dependencies
    ensures visitor.dependencies.elems == old(visitor.dependencies.elems) + Kept(Operand(insn))
  {
    match insn {
      case FieldInsn(owner) => visitor.VisitFieldInsn(owner);
      case MethodInsn(owner) => visitor.VisitMethodInsn(owner);
      case TypeInsn(operand) => visitor.VisitTypeInsn(operand);
    }
  }

  /** `ClassReader.accept` on a class summary: the header callback, then
      one callback per instruction. The visitor's set grows by exactly
      the class's references. */
  method Accept(summary: ClassSummary, visitor: DependencyClassVisitor)
    modifies visitor.dependencies
    ensures visitor.dependencies.elems == old(visitor.dependencies.elems) + ClassRefs(summary)
  {
    var dependencies := visitor.dependencies;
    visitor.Visit(summary.superName, summary.interfaces);
    ghost var afterHeader := dependencies.elems;
    var code := summary.code;
    var k := 0;
    while k < |code|
      invariant 0 <= k <= |code|
      invariant dependencies.elems == afterHeader + CodeRefs(code[..k])
    {
      Dispatch(code[k], visitor);
      CodeRefsStep(code, k);
      k := k + 1;
    }
    assert code[..k] == code;
  }
}
