/** Character classes of the rename patterns, and what a rename table has to satisfy. */
module Words {
  // `\w` of a JavaScript regular expression.
  predicate WordChar(c: char) {
    'a' <= c <= 'z' || 'A' <= c <= 'Z' || '0' <= c <= '9' || c == '_'
  }

  // `[\w$]`, the class of the lookbehind and the lookahead around a mapped name.
  predicate IdentChar(c: char) {
    WordChar(c) || c == '$'
  }

  // `\s` of a JavaScript regular expression.
  predicate Space(c: char) {
    '\t' <= c <= '\r' || c == ' ' || c == '\U{A0}' || c == '\U{1680}' || '\U{2000}' <= c <= '\U{200A}'
    || c == '\U{2028}' || c == '\U{2029}' || c == '\U{202F}' || c == '\U{205F}' || c == '\U{3000}' || c == '\U{FEFF}'
  }

  predicate AllWord(s: string) {
    forall i :: 0 <= i < |s| ==> WordChar(s[i])
  }

  predicate AllIdent(s: string) {
    forall i :: 0 <= i < |s| ==> IdentChar(s[i])
  }

  // No character at which a scan for the end of a string stops or skips.
  predicate Unmarked(s: string) {
    forall i :: 0 <= i < |s| ==> s[i] !in {'"', '\'', '\n', '\\'}
  }

  const ENV_PREFIX_OLD := "KAVACH_"
  const ENV_PREFIX_NEW := "THEAUTH_"

  // The old names with their canonical names (`NAME_LOOKUP`).
  type Table = map<string, string>

  predicate Old(k: string) {
    && k != "process" && k != "import" && k != "meta" && k != "env"
    && !(ENV_PREFIX_NEW <= k)
  }

  predicate Canonical(t: Table, k: string, v: string) {
    && v != "" && (AllIdent(k) ==> AllIdent(v))
    && v !in t
    && v != "process" && v != "import"
    && !("env" <= v) && !("meta" <= v) && !(ENV_PREFIX_OLD <= v)
  }

  // What the codemod's theorems need of a table: a canonical name is an identifier if its old
  // name is one, is not itself an old name, and the names stay clear of the words of the env pattern.
  ghost predicate ValidTable(t: Table) {
    forall k :: k in t ==> Old(k) && Canonical(t, k, t[k])
  }
}
