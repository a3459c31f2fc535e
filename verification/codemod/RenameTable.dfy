/** The rename table itself, and the proof that the codemod's theorems apply to it. */
module RenameTable {
  import opened Words

  // Every row swaps the brand inside a name and keeps the rest of it: `Camel(Create, "Client")`
  // is createKavachClient to createTheAuthClient, `Upper("_KEY")` is KAVACH_KEY to THEAUTH_KEY and
  // `Lower("Nuxt")` is kavachNuxt to theAuthNuxt.
  datatype Verb = Bare | Create | Use | Build
  {
    function Text(): string {
      match this
      case Bare => ""
      case Create => "create"
      case Use => "use"
      case Build => "build"
    }
  }

  datatype Row = Camel(verb: Verb, post: string) | Upper(post: string) | Lower(post: string)
  {
    function OldName(): string {
      match this
      case Camel(verb, post) => verb.Text() + "Kavach" + post
      case Upper(post) => "KAVACH" + post
      case Lower(post) => "kavach" + post
    }

    function CanonicalName(): string {
      match this
      case Camel(verb, post) => verb.Text() + "TheAuth" + post
      case Upper(post) => "THEAUTH" + post
      case Lower(post) => "theAuth" + post
    }
  }

  // `RENAME_MAP`, package by package.
  const RENAME_MAP: seq<Row> := [
    // core
    Camel(Create, ""), Camel(Bare, ""), Camel(Bare, "Config"), Camel(Bare, "Instance"), Camel(Bare, "Hooks"),
    Camel(Bare, "Plugin"), Camel(Bare, "Error"), Upper("_AGENT_CREDENTIAL"), Upper("_PERMISSION_CREDENTIAL"),
    Upper("_DELEGATION_CREDENTIAL"),
    // client
    Camel(Bare, "ApiError"), Camel(Bare, "ClientOptions"), Camel(Bare, "Client"), Camel(Create, "Client"),
    // react
    Camel(Bare, "User"), Camel(Bare, "Session"), Camel(Bare, "Agent"), Camel(Bare, "Permission"),
    Camel(Bare, "ContextValue"), Camel(Bare, "Context"), Camel(Bare, "Provider"), Camel(Bare, "ProviderProps"),
    Camel(Use, "Context"),
    // vue
    Upper("_KEY"), Camel(Bare, "PluginOptions"), Camel(Create, "Plugin"), Camel(Bare, "User"),
    Camel(Bare, "Session"), Camel(Bare, "Agent"), Camel(Bare, "Permission"), Camel(Bare, "ContextValue"),
    // svelte
    Camel(Create, "Client"), Camel(Bare, "ClientOptions"), Camel(Bare, "Client"), Camel(Bare, "User"),
    Camel(Bare, "Session"), Camel(Bare, "Agent"), Camel(Bare, "Permission"),
    // expo
    Camel(Bare, "Storage"), Camel(Bare, "ExpoConfig"), Camel(Bare, "ContextValue"), Camel(Bare, "ExpoContext"),
    Camel(Bare, "ExpoProvider"), Camel(Bare, "ExpoProviderProps"), Camel(Use, "Context"),
    Camel(Bare, "User"), Camel(Bare, "Session"), Camel(Bare, "Agent"), Camel(Bare, "Permission"),
    // dashboard
    Camel(Bare, "Settings"), Camel(Bare, "ApiClient"), Camel(Bare, "Dashboard"),
    // auth/email
    Camel(Bare, "EmailError"),
    // adapters/nextjs
    Camel(Bare, "NextjsOptions"), Camel(Bare, "NextjsHandlers"), Lower("Nextjs"),
    // adapters/nestjs
    Camel(Bare, "NestjsOptions"), Camel(Build, "Router"), Lower("Middleware"),
    Camel(Bare, "ModuleOptions"), Camel(Bare, "Module"),
    // adapters/tanstack
    Camel(Bare, "TanStackOptions"), Camel(Bare, "TanStackHandlers"), Lower("TanStack"),
    // adapters/sveltekit
    Camel(Bare, "SvelteKitOptions"), Camel(Bare, "SvelteKitHandlers"), Lower("SvelteKit"),
    // adapters/astro
    Camel(Bare, "AstroOptions"), Camel(Bare, "AstroHandlers"), Lower("Astro"),
    // adapters/nuxt
    Camel(Bare, "NuxtOptions"), Lower("Nuxt"),
    // adapters/fastify
    Camel(Bare, "FastifyOptions"), Lower("Fastify"),
    // adapters/solidstart
    Camel(Bare, "SolidStartOptions"), Camel(Bare, "SolidStartHandlers"), Lower("SolidStart"),
    // adapters/prisma
    Camel(Bare, "PrismaAdapter")
  ]

  // `new Map(RENAME_MAP.map(...))`: a later row for the same old name wins.
  function Lookup(rows: seq<Row>): (t: Table)
    ensures forall k :: k in t ==> exists r :: r in rows && r.OldName() == k && r.CanonicalName() == t[k]
    ensures forall r :: r in rows ==> r.OldName() in t
  {
    if rows == [] then map[]
    else
      var r := rows[|rows| - 1];
      Lookup(rows[..|rows| - 1])[r.OldName() := r.CanonicalName()]
  }

  lemma FirstLetters(r: Row)
    ensures |r.OldName()| > 0 && r.OldName()[0] in {'c', 'u', 'b', 'K', 'k'}
    ensures |r.CanonicalName()| > 0 && r.CanonicalName()[0] in {'c', 'u', 'b', 'T', 't'}
  {
    if r.Camel? && r.verb != Bare {
      assert r.OldName()[0] == r.verb.Text()[0] == r.CanonicalName()[0];
    }
  }

  // No canonical name is the old name of one.
  lemma CanonicalIsNotOld(a: Row, b: Row)
    ensures a.CanonicalName() != b.OldName()
  {
    FirstLetters(a);
    FirstLetters(b);
    if a.Camel? {
      assert a.CanonicalName()[|a.verb.Text()|] == 'T';
      if b.Camel? {
        assert b.OldName()[|b.verb.Text()|] == 'K';
        assert forall i :: 0 <= i < |b.verb.Text()| ==> b.OldName()[i] == b.verb.Text()[i];
        assert forall i :: 0 <= i < |a.verb.Text()| ==> a.CanonicalName()[i] == a.verb.Text()[i];
      }
    }
  }

  // Swapping the brand keeps a name an identifier.
  lemma CanonicalIsIdent(r: Row)
    requires AllIdent(r.OldName())
    ensures AllIdent(r.CanonicalName())
  {
    var o, c := r.OldName(), r.CanonicalName();
    var p := if r.Camel? then |r.verb.Text()| else 0;
    forall i | 0 <= i < |c|
      ensures IdentChar(c[i])
    {
      if i < p {
        assert c[i] == o[i];
      } else if p + 7 <= i {
        assert c[i] == o[i - 1];
      }
    }
  }

  lemma RowIsValid(rows: seq<Row>, r: Row)
    requires r in rows
    ensures Old(r.OldName()) && Canonical(Lookup(rows), r.OldName(), r.CanonicalName())
  {
    var t, k, v := Lookup(rows), r.OldName(), r.CanonicalName();
    FirstLetters(r);
    if AllIdent(k) {
      CanonicalIsIdent(r);
    }
    if v in t {
      var r' :| r' in rows && r'.OldName() == v;
      CanonicalIsNotOld(r, r');
    }
  }

  lemma RowsAreValid(rows: seq<Row>)
    ensures ValidTable(Lookup(rows))
  {
    var t := Lookup(rows);
    forall k | k in t
      ensures Old(k) && Canonical(t, k, t[k])
    {
      var r :| r in rows && r.OldName() == k && r.CanonicalName() == t[k];
      RowIsValid(rows, r);
    }
  }

  // The shipped table meets the conditions every codemod theorem is stated under.
  lemma RenameMapIsValid()
    ensures ValidTable(Lookup(RENAME_MAP))
  {
    RowsAreValid(RENAME_MAP);
  }
}
