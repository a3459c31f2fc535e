/** `mapImportPath`: old import specifiers to new package paths. */
module ImportPath {
  import opened Prelude
  import opened Text
  import opened Words

  // Members every JavaScript object inherits. Reading one of these names from the override
  // record finds the inherited member, and the template literal prints it.
  function Inherited(name: string): Option<string> {
    if name == "constructor" then Some("function Object() { [native code] }")
    else if name == "__proto__" then Some("[object Object]")
    else if InheritedMethod(name) || InheritedAccessor(name)
    then Some("function " + name + "() { [native code] }")
    else None
  }

  predicate InheritedMethod(name: string) {
    name in {"hasOwnProperty", "isPrototypeOf", "propertyIsEnumerable", "toLocaleString", "toString", "valueOf"}
  }

  predicate InheritedAccessor(name: string) {
    name in {"__defineGetter__", "__defineSetter__", "__lookupGetter__", "__lookupSetter__"}
  }

  // `PACKAGE_SUFFIX_OVERRIDES[name] ?? name`
  function Suffix(name: string): string {
    if name == "discovery" then "plugin-discovery"
    else if name == "telemetry" then "plugin-telemetry"
    else if Inherited(name).Some? then Inherited(name).value
    else name
  }

  const SCOPED_OLD := "@kavachos/"
  const UNSCOPED_OLD := "kavachos"
  const NEW := "@glinr/theauth"

  function MapImportPath(specifier: string): Option<string> {
    if specifier == UNSCOPED_OLD || UNSCOPED_OLD + "/" <= specifier then
      Some(NEW + specifier[|UNSCOPED_OLD|..])
    else if !(SCOPED_OLD <= specifier) then None
    else
      var rest := specifier[|SCOPED_OLD|..];
      var slash := IndexOf(rest, "/");
      var name := if slash == -1 then rest else rest[..slash];
      var subpath := if slash == -1 then "" else rest[slash..];
      if name == "" then None
      else if name == "core" then Some(NEW + subpath)
      else Some(NEW + "-" + Suffix(name) + subpath)
  }

  // A new path is not an old one: it is never mapped again.
  lemma NewPathsAreFixed(specifier: string)
    requires MapImportPath(specifier).Some?
    ensures MapImportPath(MapImportPath(specifier).value).None?
  {
    var v := MapImportPath(specifier).value;
    assert v[0] == '@' && v[1] == 'g';
    assert UNSCOPED_OLD[0] == 'k' && SCOPED_OLD[1] == 'k';
  }

  lemma MethodsAreUnmarked(name: string)
    requires InheritedMethod(name)
    ensures name != "" && Unmarked(name)
  {
  }

  lemma AccessorsAreUnmarked(name: string)
    requires InheritedAccessor(name)
    ensures name != "" && Unmarked(name)
  {
  }

  lemma InheritedIsUnmarked(name: string)
    requires Inherited(name).Some?
    ensures name != "" && Unmarked(name) && Unmarked(Inherited(name).value)
  {
    hide InheritedMethod, InheritedAccessor, Unmarked;
    if name == "constructor" || name == "__proto__" {
      SpecialsAreUnmarked();
    } else {
      if InheritedMethod(name) {
        MethodsAreUnmarked(name);
      } else {
        AccessorsAreUnmarked(name);
      }
      PrintedMethodIsUnmarked(name);
    }
  }

  lemma SpecialsAreUnmarked()
    ensures Unmarked("constructor") && Unmarked("__proto__")
    ensures Unmarked("function Object() { [native code] }") && Unmarked("[object Object]")
  {
  }

  lemma PrintedMethodIsUnmarked(name: string)
    requires Unmarked(name)
    ensures Unmarked("function " + name + "() { [native code] }")
  {
    UnmarkedConcat("function ", name);
    UnmarkedConcat("function " + name, "() { [native code] }");
  }

  lemma UnmarkedConcat(a: string, b: string)
    requires Unmarked(a) && Unmarked(b)
    ensures Unmarked(a + b)
  {
  }

  // --- where the inherited members get in the way ---

  // No inherited member prints as its own name.
  lemma InheritedIsOther(name: string)
    ensures Inherited(name).Some? ==> Inherited(name).value != name
  {
    hide InheritedMethod, InheritedAccessor;
    if Inherited(name).Some? && name != "constructor" && name != "__proto__" {
      assert |Inherited(name).value| > |name|;
    }
  }

  // A package other than core keeps its name behind the new prefix if and only if it is neither an
  // override nor the name of a member every object inherits.
  lemma PackageKeepsItsName(name: string)
    requires name != "" && '/' !in name && name != "core"
    ensures MapImportPath(SCOPED_OLD + name) == Some(NEW + "-" + Suffix(name))
    ensures MapImportPath(SCOPED_OLD + name) == Some(NEW + "-" + name) <==>
            name != "discovery" && name != "telemetry" && Inherited(name).None?
  {
    hide Inherited;
    var specifier := SCOPED_OLD + name;
    assert specifier[0] == '@' && UNSCOPED_OLD[0] == 'k';
    assert specifier[..|SCOPED_OLD|] == SCOPED_OLD && specifier[|SCOPED_OLD|..] == name;
    SlashIsThere(name);
    assert NEW + "-" + Suffix(name) + "" == NEW + "-" + Suffix(name);
    InheritedIsOther(name);
    assert |"discovery"| < |"plugin-discovery"| && |"telemetry"| < |"plugin-telemetry"|;
    SameBehind(NEW + "-", Suffix(name), name);
  }

  lemma SlashIsThere(name: string)
    ensures IndexOf(name, "/") >= 0 ==> '/' in name
  {
    hide IndexOf;
    var i := IndexOf(name, "/");
    if i >= 0 {
      assert name[i] == name[i..i + 1][0] == '/';
    }
  }

  lemma SameBehind(a: string, b: string, c: string)
    ensures a + b == a + c <==> b == c
  {
    assert (a + b)[|a|..] == b && (a + c)[|a|..] == c;
  }

  // For one, `@kavachos/constructor` becomes no path at all.
  lemma ConstructorIsPrinted()
    ensures MapImportPath(SCOPED_OLD + "constructor") == Some(NEW + "-" + "function Object() { [native code] }")
  {
    hide MapImportPath;
    PackageKeepsItsName("constructor");
  }

  lemma SuffixIsUnmarked(name: string)
    requires Suffix(name) != name
    ensures name != "" && Unmarked(name) && Unmarked(Suffix(name))
  {
    hide Inherited;
    if name != "discovery" && name != "telemetry" {
      InheritedIsUnmarked(name);
    }
  }

  lemma ScopedHead(tail: string) returns (from: string, to: string, rest: string)
    requires MapImportPath(SCOPED_OLD + tail).Some?
    ensures SCOPED_OLD + tail == from + rest && MapImportPath(SCOPED_OLD + tail).value == to + rest
    ensures from != "" && to != "" && Unmarked(from) && Unmarked(to)
  {
    hide Suffix, IndexOf;
    assert (SCOPED_OLD + tail)[..10] == SCOPED_OLD && (SCOPED_OLD + tail)[10..] == tail;
    assert (SCOPED_OLD + tail)[0] == '@' && UNSCOPED_OLD[0] == 'k';
    var slash := IndexOf(tail, "/");
    var name := if slash == -1 then tail else tail[..slash];
    var subpath := if slash == -1 then "" else tail[slash..];
    assert tail == name + subpath;
    if name == "core" {
      from, to, rest := SCOPED_OLD + name, NEW, subpath;
    } else if Suffix(name) == name {
      from, to, rest := SCOPED_OLD, NEW + "-", tail;
    } else {
      SuffixIsUnmarked(name);
      from, to, rest := SCOPED_OLD + name, NEW + "-" + Suffix(name), subpath;
    }
  }

  // The mapping replaces a head without quotes, backslashes and newlines, and keeps the rest.
  lemma MappedHead(specifier: string) returns (from: string, to: string, rest: string)
    requires MapImportPath(specifier).Some?
    ensures specifier == from + rest && MapImportPath(specifier).value == to + rest
    ensures from != "" && to != "" && Unmarked(from) && Unmarked(to)
  {
    if specifier == UNSCOPED_OLD || UNSCOPED_OLD + "/" <= specifier {
      from, to, rest := UNSCOPED_OLD, NEW, specifier[|UNSCOPED_OLD|..];
    } else {
      assert specifier == SCOPED_OLD + specifier[|SCOPED_OLD|..];
      from, to, rest := ScopedHead(specifier[|SCOPED_OLD|..]);
    }
  }
}
