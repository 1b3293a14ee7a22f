/**
  OAuth scopes: shorthand expansion, intersection with a role, and the space-separated claim of the
  access token.
 */
module Scopes {
  import opened Decimal
  import opened Text

  datatype Resource =
    | Transactions | Accounts | Users | Rules | Categories | Spending | Cashflow | Owners | Assets | Wealth
    | Holdings | Portfolio | Budgets | Tags | Settings

  datatype Scope = Read(resource: Resource) | Write(resource: Resource)

  const ALL_SCOPES := [
    Read(Transactions), Write(Transactions), Read(Accounts), Write(Accounts), Read(Users), Write(Users),
    Read(Rules), Write(Rules), Read(Categories), Write(Categories), Read(Spending), Read(Cashflow),
    Read(Owners), Write(Owners), Read(Assets), Write(Assets), Read(Wealth), Write(Wealth), Read(Holdings),
    Read(Portfolio), Read(Budgets), Write(Budgets), Read(Tags), Write(Tags), Read(Settings), Write(Settings)]

  function ResourceName(r: Resource): string {
    match r
    case Transactions => "transactions"
    case Accounts => "accounts"
    case Users => "users"
    case Rules => "rules"
    case Categories => "categories"
    case Spending => "spending"
    case Cashflow => "cashflow"
    case Owners => "owners"
    case Assets => "assets"
    case Wealth => "wealth"
    case Holdings => "holdings"
    case Portfolio => "portfolio"
    case Budgets => "budgets"
    case Tags => "tags"
    case Settings => "settings"
  }

  function Name(s: Scope): string {
    (if s.Read? then "read:" else "write:") + ResourceName(s.resource)
  }

  function FindName(name: string, scopes: seq<Scope>): Option<Scope> {
    if scopes == [] then None
    else if Name(scopes[0]) == name then Some(scopes[0])
    else FindName(name, scopes[1..])
  }

  /** A full name matches itself; a shorthand matches every name with its prefix. */
  predicate Matches(requested: string, name: string) {
    requested == name || (requested == "read" && "read:" <= name) || (requested == "write" && "write:" <= name)
  }

  predicate Requests(requested: seq<string>, scope: Scope) {
    exists i :: 0 <= i < |requested| && Matches(requested[i], Name(scope))
  }

  function Filter(scopes: seq<Scope>, keep: Scope -> bool): (r: seq<Scope>)
    ensures forall s :: s in r <==> s in scopes && keep(s)
  {
    if scopes == [] then []
    else (if keep(scopes[0]) then [scopes[0]] else []) + Filter(scopes[1..], keep)
  }

  function ExpandRequestedScopes(requested: seq<string>): seq<Scope> {
    Filter(ALL_SCOPES, s => Requests(requested, s))
  }

  /** `role` is the role's table of scopes. */
  function GrantedScopes(role: seq<Scope>, requested: seq<string>): seq<Scope> {
    var expanded := ExpandRequestedScopes(requested);
    Filter(role, s => s in expanded)
  }

  function ParseWords(words: seq<string>): seq<Scope> {
    if words == [] then []
    else
      (match FindName(words[0], ALL_SCOPES) case Some(s) => [s] case None => []) + ParseWords(words[1..])
  }

  function ParseScopes(value: string): seq<Scope> {
    ParseWords(SplitWhitespace(value))
  }

  function NamesOf(scopes: seq<Scope>): (names: seq<string>)
    ensures |names| == |scopes| && forall i :: 0 <= i < |scopes| ==> names[i] == Name(scopes[i])
  {
    seq(|scopes|, i requires 0 <= i < |scopes| => Name(scopes[i]))
  }

  ghost function ResourceKey(r: Resource): (nat, char, char) {
    match r
    case Transactions => (12, 't', 'r')
    case Accounts => (8, 'a', 'c')
    case Users => (5, 'u', 's')
    case Rules => (5, 'r', 'u')
    case Categories => (10, 'c', 'a')
    case Spending => (8, 's', 'p')
    case Cashflow => (8, 'c', 'a')
    case Owners => (6, 'o', 'w')
    case Assets => (6, 'a', 's')
    case Wealth => (6, 'w', 'e')
    case Holdings => (8, 'h', 'o')
    case Portfolio => (9, 'p', 'o')
    case Budgets => (7, 'b', 'u')
    case Tags => (4, 't', 'a')
    case Settings => (8, 's', 'e')
  }

  lemma ResourceNameKey(r: Resource)
    ensures |ResourceName(r)| >= 2
    ensures ResourceKey(r) == (|ResourceName(r)|, ResourceName(r)[0], ResourceName(r)[1])
  {
  }

  lemma NameIsInjective(s: Scope, t: Scope)
    requires Name(s) == Name(t)
    ensures s == t
  {
    assert Name(s)[0] == Name(t)[0];
    var at := if s.Read? then 5 else 6;
    assert Name(s)[at..] == ResourceName(s.resource) && Name(t)[at..] == ResourceName(t.resource);
    ResourceNameKey(s.resource);
    ResourceNameKey(t.resource);
  }

  lemma ResourceNameIsWord(r: Resource)
    ensures IsWord(ResourceName(r))
  {
    match r
    case Transactions =>
    case Accounts =>
    case Users =>
    case Rules =>
    case Categories =>
    case Spending =>
    case Cashflow =>
    case Owners =>
    case Assets =>
    case Wealth =>
    case Holdings =>
    case Portfolio =>
    case Budgets =>
    case Tags =>
    case Settings =>
  }

  lemma NameIsWord(s: Scope)
    ensures IsWord(Name(s)) && Name(s) != "read" && Name(s) != "write"
  {
    ResourceNameIsWord(s.resource);
    assert Name(s)[4] == ':' || Name(s)[5] == ':';
  }

  lemma {:induction false} FindNameFinds(s: Scope, scopes: seq<Scope>)
    requires s in scopes
    ensures FindName(Name(s), scopes) == Some(s)
  {
    if Name(scopes[0]) == Name(s) {
      NameIsInjective(scopes[0], s);
    } else {
      FindNameFinds(s, scopes[1..]);
    }
  }

  lemma {:induction false} ParseWordsOfNames(scopes: seq<Scope>)
    requires forall s :: s in scopes ==> s in ALL_SCOPES
    ensures ParseWords(NamesOf(scopes)) == scopes
  {
    if scopes != [] {
      FindNameFinds(scopes[0], ALL_SCOPES);
      assert NamesOf(scopes)[1..] == NamesOf(scopes[1..]);
      ParseWordsOfNames(scopes[1..]);
    }
  }

  /** The claim of a token, read back, is the list of scopes that was signed, in order and with repeats. */
  lemma ClaimRoundTrip(scopes: seq<Scope>)
    requires forall s :: s in scopes ==> s in ALL_SCOPES
    ensures ParseScopes(Join(NamesOf(scopes), " ")) == scopes
  {
    forall i | 0 <= i < |scopes| ensures IsWord(NamesOf(scopes)[i]) {
      NameIsWord(scopes[i]);
    }
    SplitOfJoin(NamesOf(scopes));
    ParseWordsOfNames(scopes);
  }

  /** Asking for exactly what was granted grants exactly that again. */
  lemma GrantIsStable(role: seq<Scope>, requested: seq<string>)
    ensures var granted := GrantedScopes(role, requested);
            GrantedScopes(role, NamesOf(granted)) == granted
  {
    var granted := GrantedScopes(role, requested);
    var again := ExpandRequestedScopes(NamesOf(granted));
    forall s | s in role ensures s in again <==> s in ExpandRequestedScopes(requested) {
      RequestsNames(granted, s);
    }
    FilterSame(role, s => s in again, s => s in ExpandRequestedScopes(requested));
  }

  /** Full names request exactly the scopes they name. */
  lemma RequestsNames(scopes: seq<Scope>, s: Scope)
    ensures Requests(NamesOf(scopes), s) <==> s in scopes
  {
    if i :| 0 <= i < |scopes| && scopes[i] == s {
      assert NamesOf(scopes)[i] == Name(s);
    }
    if Requests(NamesOf(scopes), s) {
      var names := NamesOf(scopes);
      var i :| 0 <= i < |names| && Matches(names[i], Name(s));
      NameIsWord(scopes[i]);
      NameIsInjective(scopes[i], s);
    }
  }

  lemma {:induction false} FilterSame(scopes: seq<Scope>, p: Scope -> bool, q: Scope -> bool)
    requires forall s :: s in scopes ==> p(s) == q(s)
    ensures Filter(scopes, p) == Filter(scopes, q)
  {
    if scopes != [] {
      FilterSame(scopes[1..], p, q);
    }
  }

  /** What a request covers: the scopes it names, and all reads or writes if it has the shorthand. */
  lemma RequestsMeans(requested: seq<string>, s: Scope)
    ensures Requests(requested, s) <==>
            Name(s) in requested || ("read" in requested && s.Read?) || ("write" in requested && s.Write?)
  {
    assert "read:" <= Name(s) <==> s.Read? by {
      assert Name(s)[0] == if s.Read? then 'r' else 'w';
    }
    assert "write:" <= Name(s) <==> s.Write? by {
      assert Name(s)[0] == if s.Read? then 'r' else 'w';
    }
    if Name(s) in requested || ("read" in requested && s.Read?) || ("write" in requested && s.Write?) {
      var i :| 0 <= i < |requested| && (requested[i] == Name(s) || (requested[i] == "read" && s.Read?) ||
                                        (requested[i] == "write" && s.Write?));
      assert Matches(requested[i], Name(s));
    }
  }

  /** What is granted is what the role has and the request covers. */
  lemma GrantIsIntersection(role: seq<Scope>, requested: seq<string>, s: Scope)
    ensures s in GrantedScopes(role, requested) <==>
            && s in role && s in ALL_SCOPES
            && (Name(s) in requested || ("read" in requested && s.Read?) || ("write" in requested && s.Write?))
  {
    RequestsMeans(requested, s);
  }

  /** Asking for more never grants less. */
  lemma GrantGrows(role: seq<Scope>, requested: seq<string>, more: seq<string>, s: Scope)
    requires s in GrantedScopes(role, requested)
    ensures s in GrantedScopes(role, requested + more)
  {
    GrantIsIntersection(role, requested, s);
    GrantIsIntersection(role, requested + more, s);
  }

  /** The list grows with the role: scopes that are covered are granted in the role's order, with its repeats. */
  lemma GrantKeepsOrder(role: seq<Scope>, s: Scope, requested: seq<string>)
    ensures var covered := s in ALL_SCOPES &&
                           (Name(s) in requested || ("read" in requested && s.Read?) ||
                            ("write" in requested && s.Write?));
            GrantedScopes(role + [s], requested) == GrantedScopes(role, requested) + if covered then [s] else []
  {
    var expanded := ExpandRequestedScopes(requested);
    RequestsMeans(requested, s);
    FilterSnoc(role, s, t => t in expanded);
  }

  lemma {:induction false} FilterSnoc(scopes: seq<Scope>, s: Scope, keep: Scope -> bool)
    ensures Filter(scopes + [s], keep) == Filter(scopes, keep) + if keep(s) then [s] else []
  {
    if scopes == [] {
      assert [] + [s] == [s];
    } else {
      assert (scopes + [s])[1..] == scopes[1..] + [s];
      FilterSnoc(scopes[1..], s, keep);
    }
  }

  // ----- Texts

  const RESOURCES := [
    Transactions, Accounts, Users, Rules, Categories, Spending, Cashflow, Owners, Assets, Wealth, Holdings,
    Portfolio, Budgets, Tags, Settings]

  const RESOURCE_NAMES := [
    "transactions", "accounts", "users", "rules", "categories", "spending", "cashflow", "owners", "assets",
    "wealth", "holdings", "portfolio", "budgets", "tags", "settings"]

  lemma ResourcesAreNamed(i: nat)
    requires i < |RESOURCES|
    ensures |RESOURCE_NAMES| == |RESOURCES| && ResourceName(RESOURCES[i]) == RESOURCE_NAMES[i]
  {
  }

  /** The name of every scope. */
  lemma ScopesAreNamed(i: nat)
    requires i < |RESOURCES|
    ensures |RESOURCE_NAMES| == |RESOURCES|
    ensures Name(Read(RESOURCES[i])) == "read:" + RESOURCE_NAMES[i]
    ensures Name(Write(RESOURCES[i])) == "write:" + RESOURCE_NAMES[i]
  {
    ResourcesAreNamed(i);
  }

  lemma ParseOne(w: string)
    ensures forall s :: s in ALL_SCOPES && Name(s) == w ==> ParseWords([w]) == [s]
    ensures (forall s :: s in ALL_SCOPES ==> Name(s) != w) ==> ParseWords([w]) == []
  {
    FindNameIsSound(w, ALL_SCOPES);
    assert [w][1..] == [] && ParseWords([]) == [];
    forall s | s in ALL_SCOPES && Name(s) == w ensures ParseWords([w]) == [s] {
      FindNameFinds(s, ALL_SCOPES);
    }
  }

  lemma {:induction false} ParseConcat(words: seq<string>, more: seq<string>)
    ensures ParseWords(words + more) == ParseWords(words) + ParseWords(more)
  {
    if words == [] {
      assert [] + more == more;
    } else {
      assert (words + more)[1..] == words[1..] + more;
      ParseConcat(words[1..], more);
    }
  }

  /** A word of a claim adds the scope of that name, and no other word adds anything. */
  lemma ParseOneMore(words: seq<string>, w: string)
    ensures forall s :: s in ALL_SCOPES && Name(s) == w ==> ParseWords(words + [w]) == ParseWords(words) + [s]
    ensures (forall s :: s in ALL_SCOPES ==> Name(s) != w) ==> ParseWords(words + [w]) == ParseWords(words)
  {
    ParseConcat(words, [w]);
    ParseOne(w);
  }

  lemma {:induction false} FindNameIsSound(name: string, scopes: seq<Scope>)
    ensures FindName(name, scopes).Some? ==>
              FindName(name, scopes).value in scopes && Name(FindName(name, scopes).value) == name
  {
    if scopes != [] {
      FindNameIsSound(name, scopes[1..]);
    }
  }

  /** The words of a claim may be spaced in any way. */
  lemma ClaimIsWords(blanks: seq<string>, words: seq<string>)
    requires |blanks| == |words| + 1 && forall i :: 0 <= i < |blanks| ==> AllBlank(blanks[i])
    requires forall i :: 0 < i < |words| ==> blanks[i] != ""
    requires forall i :: 0 <= i < |words| ==> IsWord(words[i])
    ensures ParseScopes(Spaced(blanks, words)) == ParseWords(words)
  {
    SplitOfSpaced(blanks, words);
  }
}
