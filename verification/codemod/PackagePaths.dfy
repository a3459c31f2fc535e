/** Which import specifiers are old, and the new path of each. */
module PackagePaths {
  import opened Prelude
  import opened Text
  import opened ImportPath

  // Nothing, or a path inside a package.
  predicate SubPath(sub: string) {
    sub != "" ==> sub[0] == '/'
  }

  predicate PackageName(name: string) {
    name != "" && '/' !in name
  }

  // The two forms of an old specifier.
  predicate OldRoot(specifier: string, sub: string) {
    SubPath(sub) && specifier == "kavachos" + sub
  }

  predicate OldScoped(specifier: string, name: string, sub: string) {
    PackageName(name) && SubPath(sub) && specifier == "@kavachos/" + (name + sub)
  }

  // The new name of a package.
  function NewPackage(name: string): string {
    if name == "core" then "@glinr/theauth"
    else if name == "discovery" then "@glinr/theauth-plugin-discovery"
    else if name == "telemetry" then "@glinr/theauth-plugin-telemetry"
    else if Inherited(name).Some? then "@glinr/theauth-" + Inherited(name).value
    else "@glinr/theauth-" + name
  }

  lemma RootSplits(s: string, sub: string)
    requires s == UNSCOPED_OLD + sub && SubPath(sub)
    ensures s == UNSCOPED_OLD || UNSCOPED_OLD + "/" <= s
    ensures s[|UNSCOPED_OLD|..] == sub
  {
    if sub != "" {
      assert s[..|UNSCOPED_OLD| + 1] == UNSCOPED_OLD + "/";
    }
  }

  lemma OldRootIsMapped(specifier: string, sub: string)
    requires OldRoot(specifier, sub)
    ensures MapImportPath(specifier) == Some("@glinr/theauth" + sub)
  {
    hide IndexOf, Suffix;
    RootSplits(specifier, sub);
  }

  lemma SlashSplits(name: string, sub: string)
    requires PackageName(name) && SubPath(sub)
    ensures var i := IndexOf(name + sub, "/");
            if sub == "" then i == -1 && name + sub == name
            else i == |name| && (name + sub)[..i] == name && (name + sub)[i..] == sub
  {
    hide IndexOf;
    var s := name + sub;
    if sub == "" {
      assert s == name;
      SlashIsThere(name);
    } else {
      assert s[|name|..|name| + 1] == "/";
      assert OccursAt(s, "/", |name|);
      NoSlashBefore(name, sub, IndexOf(s, "/"));
    }
  }

  lemma NoSlashBefore(name: string, sub: string, i: int)
    requires '/' !in name && 0 <= i <= |name| && i < |name + sub| && OccursAt(name + sub, "/", i)
    ensures i == |name|
  {
    var s := name + sub;
    assert s[i] == s[i..i + 1][0] == '/';
    assert forall k :: 0 <= k < |name| ==> s[k] == name[k] && name[k] in name;
  }

  lemma OldScopedIsMapped(specifier: string, name: string, sub: string)
    requires OldScoped(specifier, name, sub)
    ensures MapImportPath(specifier) == Some(NewPackage(name) + sub)
  {
    hide IndexOf, Inherited;
    var rest := name + sub;
    assert specifier[0] == '@' && UNSCOPED_OLD[0] == 'k';
    assert specifier[..|SCOPED_OLD|] == SCOPED_OLD && specifier[|SCOPED_OLD|..] == rest;
    SlashSplits(name, sub);
    NewNames(name);
  }

  lemma NewNames(name: string)
    ensures NewPackage(name) == if name == "core" then NEW else NEW + "-" + Suffix(name)
  {
    hide Inherited;
    assert "@glinr/theauth-" == NEW + "-";
    assert "@glinr/theauth-plugin-discovery" == NEW + "-" + "plugin-discovery";
    assert "@glinr/theauth-plugin-telemetry" == NEW + "-" + "plugin-telemetry";
  }

  // Any other specifier stays.
  lemma OnlyOldIsMapped(specifier: string)
    ensures MapImportPath(specifier).Some? ==>
              (exists sub :: OldRoot(specifier, sub)) || exists name, sub :: OldScoped(specifier, name, sub)
  {
    hide IndexOf, Suffix;
    if specifier == UNSCOPED_OLD || UNSCOPED_OLD + "/" <= specifier {
      RootOf(specifier);
    } else if MapImportPath(specifier).Some? {
      ScopedOf(specifier);
    }
  }

  lemma RootOf(specifier: string)
    requires specifier == UNSCOPED_OLD || UNSCOPED_OLD + "/" <= specifier
    ensures exists sub :: OldRoot(specifier, sub)
  {
    var n := |UNSCOPED_OLD|;
    var sub := specifier[n..];
    if specifier != UNSCOPED_OLD {
      assert specifier[..n + 1] == UNSCOPED_OLD + "/";
      assert specifier[..n] == specifier[..n + 1][..n] == UNSCOPED_OLD;
      assert specifier[n] == specifier[..n + 1][n] == '/';
    }
    assert OldRoot(specifier, sub);
  }

  lemma ScopedOf(specifier: string)
    requires MapImportPath(specifier).Some? && specifier != UNSCOPED_OLD && !(UNSCOPED_OLD + "/" <= specifier)
    ensures exists name, sub :: OldScoped(specifier, name, sub)
  {
    hide IndexOf, Suffix;
    var rest := specifier[|SCOPED_OLD|..];
    assert specifier == SCOPED_OLD + rest;
    var slash := IndexOf(rest, "/");
    var name := if slash == -1 then rest else rest[..slash];
    var sub := if slash == -1 then "" else rest[slash..];
    assert rest == name + sub;
    NameHasNoSlash(rest);
    assert OldScoped(specifier, name, sub);
  }

  lemma NameHasNoSlash(rest: string)
    ensures var slash := IndexOf(rest, "/");
            var name := if slash == -1 then rest else rest[..slash];
            '/' !in name && (slash >= 0 ==> rest[slash] == '/')
  {
    hide IndexOf;
    var slash := IndexOf(rest, "/");
    var name := if slash == -1 then rest else rest[..slash];
    forall k | 0 <= k < |name|
      ensures name[k] != '/'
    {
      assert rest[k..k + 1] == [name[k]];
      assert OccursAt(rest, [name[k]], k);
    }
    if slash >= 0 {
      assert rest[slash] == rest[slash..slash + 1][0];
    }
  }
}
