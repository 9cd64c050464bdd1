/** String conversions between jar entry paths, JVM internal names and
    dotted class names, as the checker performs them with Java's
    `String.replace` and ASM's `Type.getClassName`. */
module Names {

  /** Java's `String.startsWith`. */
  predicate StartsWith(s: string, prefix: string)
  {
    prefix <= s
  }

  /** Java's `String.endsWith`. */
  predicate EndsWith(s: string, suffix: string)
  {
    |suffix| <= |s| && s[|s| - |suffix|..] == suffix
  }

  /** True when `target` occurs somewhere inside `s`. */
  ghost predicate Occurs(target: string, s: string)
  {
    exists i :: 0 <= i <= |s| && target <= s[i..]
  }

  /** Java's `String.replace(char, char)`: every `from` becomes `to`,
      every other character stays where it was. */
  function ReplaceChar(s: string, from: char, to: char): (r: string)
    ensures |r| == |s|
    ensures forall i :: 0 <= i < |s| && s[i] != from ==> r[i] == s[i]
    ensures forall i :: 0 <= i < |s| && s[i] == from ==> r[i] == to
  {
    seq(|s|, i requires 0 <= i < |s| => if s[i] == from then to else s[i])
  }

  /** Java's `String.replace(target, "")` for a non-empty target: the text
      is scanned left to right and each non-overlapping occurrence is
      dropped; text that a deletion brings together is not scanned again. */
  function DeleteAll(s: string, target: string): (r: string)
    requires target != []
    ensures |r| <= |s|
    ensures forall c :: c in r ==> c in s
    decreases |s|
  {
    if |s| == 0 then []
    else if target <= s then DeleteAll(s[|target|..], target)
    else [s[0]] + DeleteAll(s[1..], target)
  }

  /** The dotted class name of a jar entry (`classNameFromEntry`):
      every `/` becomes `.`, then every `.class` is deleted. */
  function ClassNameFromEntry(entryName: string): (name: string)
    ensures '/' !in name
    ensures |name| <= |entryName|
  {
    DeleteAll(ReplaceChar(entryName, '/', '.'), ".class")
  }

  /** The entry path under which a dotted class name is looked up in a jar:
      every `.` becomes `/` and `.class` is appended. */
  function EntryPath(className: string): (path: string)
    ensures EndsWith(path, ".class")
    ensures |path| == |className| + 6
    ensures forall i :: 0 <= i < |className| ==> path[i] != '.'
  {
    ReplaceChar(className, '.', '/') + ".class"
  }

  /** ASM's `Type.getObjectType(n).getClassName()` on a plain internal
      name: the slash form becomes the dotted form. */
  function ClassName(internalName: string): (name: string)
    ensures |name| == |internalName|
    ensures '/' !in name
    ensures forall i :: 0 <= i < |name| && internalName[i] != '/' ==> name[i] == internalName[i]
  {
    ReplaceChar(internalName, '/', '.')
  }

  lemma ReplaceCharAppend(a: string, b: string, from: char, to: char)
    ensures ReplaceChar(a + b, from, to) == ReplaceChar(a, from, to) + ReplaceChar(b, from, to)
  {
    var l, r := ReplaceChar(a + b, from, to), ReplaceChar(a, from, to) + ReplaceChar(b, from, to);
    assert |l| == |r|;
    forall i | 0 <= i < |l| ensures l[i] == r[i] {
      if i < |a| {
        assert (a + b)[i] == a[i];
      } else {
        assert (a + b)[i] == b[i - |a|];
      }
    }
  }

  /** Replacing a character that does not occur changes nothing. */
  lemma ReplaceCharAbsent(s: string, from: char, to: char)
    requires from !in s
    ensures ReplaceChar(s, from, to) == s
  {
    var r := ReplaceChar(s, from, to);
    forall i | 0 <= i < |s| ensures r[i] == s[i] {
      assert s[i] in s;
    }
  }

  /** With no `/` in the name, turning dots into slashes and back is the
      identity. */
  lemma DotsToSlashesAndBack(n: string)
    requires '/' !in n
    ensures ReplaceChar(ReplaceChar(n, '.', '/'), '/', '.') == n
  {
    var m := ReplaceChar(n, '.', '/');
    var r := ReplaceChar(m, '/', '.');
    forall i | 0 <= i < |n| ensures r[i] == n[i] {
      assert n[i] in n;
      if n[i] == '.' {
        assert m[i] == '/';
      } else {
        assert m[i] == n[i];
      }
    }
  }

  /** Deleting every `.class` from `n + ".class" + rest` keeps `n` and
      drops that occurrence when `n` itself holds no `.class`: ".class" has
      no proper prefix that is also a suffix, so no occurrence can
      straddle the join. */
  lemma {:induction false} DropClassOccurrence(n: string, rest: string)
    requires !Occurs(".class", n)
    ensures DeleteAll(n + ".class" + rest, ".class") == n + DeleteAll(rest, ".class")
    decreases |n|
  {
    var s := n + ".class" + rest;
    if |n| == 0 {
      assert s == ".class" + rest;
      assert s[6..] == rest;
    } else {
      if |n| >= 6 {
        assert s[..6] == n[..6];
        assert n[0..] == n;
        assert !(".class" <= n[0..]);
      } else {
        assert s[|n|] == '.';
        assert ".class"[|n|] != '.';
      }
      assert !(".class" <= s);
      assert s[1..] == n[1..] + ".class" + rest;
      forall i | 0 <= i <= |n[1..]| ensures !(".class" <= n[1..][i..]) {
        assert n[1..][i..] == n[i + 1..];
      }
      DropClassOccurrence(n[1..], rest);
      assert [n[0]] + n[1..] == n;
    }
  }

  lemma DropClassSuffix(n: string)
    requires !Occurs(".class", n)
    ensures DeleteAll(n + ".class", ".class") == n
  {
    DropClassOccurrence(n, []);
    assert n + ".class" + [] == n + ".class";
  }

  /** Round trip of lines 104 and 72: a dotted class name with no `/` and
      no `.class` inside is recovered from its entry path. */
  lemma EntryPathRoundTrip(className: string)
    requires '/' !in className
    requires !Occurs(".class", className)
    ensures ClassNameFromEntry(EntryPath(className)) == className
  {
    var slashed := ReplaceChar(className, '.', '/');
    ReplaceCharAppend(slashed, ".class", '/', '.');
    ReplaceCharAbsent(".class", '/', '.');
    DotsToSlashesAndBack(className);
    DropClassSuffix(className);
  }

  /** The name recorded as available for entry `x + ".class"` is the name
      ASM reports for the internal name `x`, so a class whose entry is
      listed and a reference to it agree. */
  lemma EntryNameMatchesClassName(internalName: string)
    requires !Occurs(".class", ClassName(internalName))
    ensures ClassNameFromEntry(internalName + ".class") == ClassName(internalName)
  {
    ReplaceCharAppend(internalName, ".class", '/', '.');
    ReplaceCharAbsent(".class", '/', '.');
    DropClassSuffix(ClassName(internalName));
  }

  /** Two slash-free dotted names with the same entry path are equal. */
  lemma EntryPathInjective(a: string, b: string)
    requires '/' !in a && '/' !in b
    requires EntryPath(a) == EntryPath(b)
    ensures a == b
  {
    assert ReplaceChar(a, '.', '/') == EntryPath(a)[..|a|];
    assert ReplaceChar(b, '.', '/') == EntryPath(b)[..|b|];
    DotsToSlashesAndBack(a);
    DotsToSlashesAndBack(b);
  }

  /** A text without any occurrence of the target is left unchanged. */
  lemma {:induction false} DeleteAllAbsent(s: string, target: string)
    requires target != []
    requires !Occurs(target, s)
    ensures DeleteAll(s, target) == s
    decreases |s|
  {
    if |s| > 0 {
      assert s[0..] == s;
      forall i | 0 <= i <= |s[1..]| ensures !(target <= s[1..][i..]) {
        assert s[1..][i..] == s[i + 1..];
      }
      DeleteAllAbsent(s[1..], target);
    }
  }

  /** `replace(".class", "")` deletes every occurrence, not only the
      suffix: for a class in a package segment named `classes`, the name
      recorded for its entry loses the `.class` inside, so it differs from
      the name it was looked up by. */
  lemma ClassesSegmentIsCut(pkg: string, cls: string)
    requires '/' !in pkg && '/' !in cls
    requires !Occurs(".class", pkg) && !Occurs(".class", "es." + cls)
    ensures ClassNameFromEntry(EntryPath(pkg + ".classes." + cls)) == pkg + "es." + cls
  {
    var n := pkg + ".classes." + cls;
    assert '/' !in n by {
      assert forall c :: c in n ==> c in pkg || c in ".classes." || c in cls;
    }
    ReplaceCharAppend(ReplaceChar(n, '.', '/'), ".class", '/', '.');
    ReplaceCharAbsent(".class", '/', '.');
    DotsToSlashesAndBack(n);
    assert n + ".class" == pkg + ".class" + ("es." + cls + ".class");
    DropClassOccurrence(pkg, "es." + cls + ".class");
    DropClassSuffix("es." + cls);
  }
}
