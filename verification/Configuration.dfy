/** The configuration file: variables of the environment in its text, and the validation of its servers. */
module Configuration {
  import opened Common
  import opened Namespacing
  import opened LeafRegistry

  // ---------- Templates ----------

  /** A piece of a configuration text: literal text, or a variable in `${` and `}`. */
  datatype Piece = Text(text: string) | Variable(name: string)

  type Env = map<string, string>

  const OPEN := "${"

  predicate OpensAt(s: string, i: int) {
    0 <= i < |s| - 1 && s[i] == '$' && s[i + 1] == '{'
  }

  /** The text up to the first `}`, if there is one. */
  function UpToBrace(s: string): Option<string> {
    if s == "" then None
    else if s[0] == '}' then Some("")
    else match UpToBrace(s[1..])
      case Some(name) => Some([s[0]] + name)
      case None => None
  }

  function AddChar(c: char, pieces: seq<Piece>): seq<Piece> {
    if pieces != [] && pieces[0].Text? then [Text([c] + pieces[0].text)] + pieces[1..] else [Text([c])] + pieces
  }

  /** Reads a text character by character. */
  function Parse(s: string): seq<Piece> {
    if s == "" then []
    else if OpensAt(s, 0) then
      match UpToBrace(s[2..])
      case Some(name) =>
        UpToBraceIsPrefix(s[2..]);
        [Variable(name)] + Parse(s[|name| + 3..])
      case None => [Text(s)]
    else AddChar(s[0], Parse(s[1..]))
  }

  lemma {:induction false} UpToBraceIsPrefix(s: string)
    ensures UpToBrace(s).None? <==> '}' !in s
    ensures UpToBrace(s).Some? ==>
              var name := UpToBrace(s).value;
              |name| < |s| && s == name + "}" + s[|name| + 1..] && '}' !in name
    decreases |s|
  {
    if s != "" && s[0] != '}' {
      UpToBraceIsPrefix(s[1..]);
      assert s == [s[0]] + s[1..];
      if UpToBrace(s).Some? {
        var rest := UpToBrace(s[1..]).value;
        assert s[1..][|rest| + 1..] == s[|rest| + 2..];
      }
    }
  }

  function Written(p: Piece): string {
    match p
    case Text(text) => text
    case Variable(name) => OPEN + name + "}"
  }

  function Unparse(pieces: seq<Piece>): string {
    if pieces == [] then "" else Written(pieces[0]) + Unparse(pieces[1..])
  }

  /** The value of a variable. One that is not set is empty. */
  function ValueOf(env: Env, name: string): string {
    if name in env then env[name] else ""
  }

  function Rendered(p: Piece, env: Env): string {
    match p
    case Text(text) => text
    case Variable(name) => ValueOf(env, name)
  }

  function Render(pieces: seq<Piece>, env: Env): string {
    if pieces == [] then "" else Rendered(pieces[0], env) + Render(pieces[1..], env)
  }

  lemma RenderAddChar(c: char, pieces: seq<Piece>, env: Env)
    ensures Render(AddChar(c, pieces), env) == [c] + Render(pieces, env)
    ensures Unparse(AddChar(c, pieces)) == [c] + Unparse(pieces)
  {
    var more := AddChar(c, pieces);
    if pieces != [] && pieces[0].Text? {
      assert more[1..] == pieces[1..];
    } else {
      assert more[1..] == pieces;
    }
  }

  lemma ParseChar(s: string)
    requires s != "" && !OpensAt(s, 0)
    ensures Parse(s) == AddChar(s[0], Parse(s[1..]))
  {
  }

  lemma Reassociate(a: string, b: string, c: string)
    ensures (a + b) + c == a + (b + c)
  {
  }

  lemma VariableText(s: string, name: string)
    requires OpensAt(s, 0) && UpToBrace(s[2..]) == Some(name)
    ensures |name| + 3 <= |s| && s == OPEN + name + "}" + s[|name| + 3..]
  {
    var t := s[2..];
    UpToBraceIsPrefix(t);
    var rest := t[|name| + 1..];
    assert rest == s[|name| + 3..];
    assert s[..2] == OPEN && s == s[..2] + t;
    Reassociate(OPEN, name + "}", rest);
    Reassociate(OPEN, name, "}");
  }

  lemma ParseVariable(s: string, name: string)
    requires OpensAt(s, 0) && UpToBrace(s[2..]) == Some(name) && |name| + 3 <= |s|
    ensures Parse(s) == [Variable(name)] + Parse(s[|name| + 3..])
  {
  }

  lemma UnparseVariable(name: string, pieces: seq<Piece>, env: Env)
    ensures Unparse([Variable(name)] + pieces) == OPEN + name + "}" + Unparse(pieces)
    ensures Render([Variable(name)] + pieces, env) == ValueOf(env, name) + Render(pieces, env)
  {
    assert ([Variable(name)] + pieces)[1..] == pieces;
  }

  lemma OneText(text: string, env: Env)
    ensures Unparse([Text(text)]) == text && Render([Text(text)], env) == text
  {
    assert [Text(text)][1..] == [];
    assert text + "" == text;
  }

  /** Parsing loses nothing. */
  lemma {:induction false} UnparseOfParse(s: string)
    ensures Unparse(Parse(s)) == s
    decreases |s|
  {
    if s == "" {
    } else if OpensAt(s, 0) {
      match UpToBrace(s[2..])
      case Some(name) =>
        VariableText(s, name);
        ParseVariable(s, name);
        UnparseOfParse(s[|name| + 3..]);
        UnparseVariable(name, Parse(s[|name| + 3..]), map[]);
      case None =>
        OneText(s, map[]);
    } else {
      ParseChar(s);
      UnparseOfParse(s[1..]);
      RenderAddChar(s[0], Parse(s[1..]), map[]);
    }
  }

  // ---------- The interpolation loop ----------

  /** First position of `${`. */
  function FindOpen(s: string): (at: Option<nat>)
    ensures at.Some? ==> OpensAt(s, at.value) && forall i :: 0 <= i < at.value ==> !OpensAt(s, i)
    ensures at.None? ==> forall i :: 0 <= i < |s| ==> !OpensAt(s, i)
  {
    if s == "" then None
    else if OpensAt(s, 0) then Some(0)
    else
      assert forall i :: 1 <= i < |s| ==> (OpensAt(s, i) <==> OpensAt(s[1..], i - 1));
      match FindOpen(s[1..])
      case Some(i) => Some(i + 1)
      case None => None
  }

  lemma RenderChar(s: string, env: Env)
    requires s != "" && !OpensAt(s, 0)
    ensures Render(Parse(s), env) == [s[0]] + Render(Parse(s[1..]), env)
  {
    ParseChar(s);
    RenderAddChar(s[0], Parse(s[1..]), env);
  }

  lemma OneLess(s: string, n: nat)
    requires 0 < n <= |s|
    ensures s[..n] == [s[0]] + s[1..][..n - 1] && s[n..] == s[1..][n - 1..]
  {
  }

  /** Text before the first `${` is literal. */
  lemma {:induction false} LiteralPrefix(s: string, n: nat, env: Env)
    requires n <= |s| && forall i :: 0 <= i < n ==> !OpensAt(s, i)
    ensures Render(Parse(s), env) == s[..n] + Render(Parse(s[n..]), env)
    decreases n
  {
    if n == 0 {
      assert s[0..] == s;
    } else {
      RenderChar(s, env);
      forall i | 0 <= i < n - 1
        ensures !OpensAt(s[1..], i)
      {
        assert !OpensAt(s, i + 1);
      }
      LiteralPrefix(s[1..], n - 1, env);
      OneLess(s, n);
      Reassociate([s[0]], s[1..][..n - 1], Render(Parse(s[n..]), env));
    }
  }

  lemma RenderVariable(s: string, name: string, env: Env)
    requires OpensAt(s, 0) && UpToBrace(s[2..]) == Some(name)
    ensures |name| + 3 <= |s| && Render(Parse(s), env) == ValueOf(env, name) + Render(Parse(s[|name| + 3..]), env)
  {
    VariableText(s, name);
    ParseVariable(s, name);
    UnparseVariable(name, Parse(s[|name| + 3..]), env);
  }

  lemma RenderUnclosed(s: string, env: Env)
    requires OpensAt(s, 0) && UpToBrace(s[2..]).None?
    ensures Render(Parse(s), env) == s
  {
    OneText(s, env);
  }

  /** The next step of the loop: literal text, then a variable or the end. */
  lemma RenderStep(s: string, env: Env)
    ensures FindOpen(s).None? ==> Render(Parse(s), env) == s
    ensures FindOpen(s).Some? ==>
              Render(Parse(s), env) == s[..FindOpen(s).value] + Render(Parse(s[FindOpen(s).value..]), env)
  {
    match FindOpen(s)
    case None =>
      LiteralPrefix(s, |s|, env);
      assert s[..|s|] == s && s[|s|..] == "";
    case Some(i) =>
      LiteralPrefix(s, i, env);
  }

  /** Theorem: the loop renders the parsed text in one pass. Values are not scanned again. */
  method InterpolateEnvVars(content: string, env: Env) returns (result: string)
    ensures result == Render(Parse(content), env)
  {
    result := "";
    var remainder := content;
    ghost var goal := Render(Parse(content), env);
    var start := FindOpen(remainder);
    while start.Some?
      invariant goal == result + Render(Parse(remainder), env)
      invariant start == FindOpen(remainder)
      decreases |remainder|
    {
      var literal, tail := remainder[..start.value], remainder[start.value..];
      RenderStep(remainder, env);
      Reassociate(result, literal, Render(Parse(tail), env));
      result := result + literal;
      match UpToBrace(tail[2..]) {
        case Some(name) =>
          RenderVariable(tail, name, env);
          Reassociate(result, ValueOf(env, name), Render(Parse(tail[|name| + 3..]), env));
          result := result + ValueOf(env, name);
          remainder := tail[|name| + 3..];
        case None =>
          RenderUnclosed(tail, env);
          return result + tail;
      }
      start := FindOpen(remainder);
    }
    RenderStep(remainder, env);
    result := result + remainder;
  }

  // ---------- What interpolation means ----------

  /** The environment gives each of these variables back as it was written. */
  predicate Echoes(env: Env, pieces: seq<Piece>) {
    forall i :: 0 <= i < |pieces| && pieces[i].Variable? ==> ValueOf(env, pieces[i].name) == Written(pieces[i])
  }

  lemma {:induction false} EchoRenders(pieces: seq<Piece>, env: Env)
    requires Echoes(env, pieces)
    ensures Render(pieces, env) == Unparse(pieces)
    decreases |pieces|
  {
    if pieces != [] { EchoRenders(pieces[1..], env); }
  }

  /** Theorem: an environment that maps each name to its own `${name}` returns every text unchanged. */
  lemma EchoIsIdentity(s: string, env: Env)
    requires Echoes(env, Parse(s))
    ensures Render(Parse(s), env) == s
  {
    EchoRenders(Parse(s), env);
    UnparseOfParse(s);
  }

  /** Every `${` of a text is closed. */
  predicate AllClosed(s: string) {
    s == "" ||
    if OpensAt(s, 0) then
      match UpToBrace(s[2..])
      case Some(name) => |name| + 3 <= |s| && AllClosed(s[|name| + 3..])
      case None => false
    else AllClosed(s[1..])
  }

  lemma {:induction false} UpToBraceExtends(s: string, t: string)
    requires UpToBrace(s).Some?
    ensures UpToBrace(s + t) == UpToBrace(s)
    decreases |s|
  {
    if s[0] != '}' {
      assert (s + t)[1..] == s[1..] + t;
      UpToBraceExtends(s[1..], t);
    }
  }

  lemma TailOf(s: string, t: string, n: nat)
    requires n <= |s|
    ensures (s + t)[n..] == s[n..] + t
  {
  }

  /** Theorem: texts are interpolated piece by piece, as long as no variable is left open across the seam. */
  lemma {:induction false} InterpolationComposes(s: string, t: string, env: Env)
    requires AllClosed(s) && (t == "" || t[0] != '{')
    ensures Render(Parse(s + t), env) == Render(Parse(s), env) + Render(Parse(t), env)
    decreases |s|
  {
    if s == "" {
      assert s + t == t;
    } else if OpensAt(s, 0) {
      var name := UpToBrace(s[2..]).value;
      var rest := s[|name| + 3..];
      TailOf(s, t, 2);
      TailOf(s, t, |name| + 3);
      UpToBraceExtends(s[2..], t);
      InterpolationComposes(rest, t, env);
      RenderVariable(s, name, env);
      RenderVariable(s + t, name, env);
      Reassociate(ValueOf(env, name), Render(Parse(rest), env), Render(Parse(t), env));
    } else {
      TailOf(s, t, 1);
      assert !OpensAt(s + t, 0);
      InterpolationComposes(s[1..], t, env);
      RenderChar(s, env);
      RenderChar(s + t, env);
      Reassociate([s[0]], Render(Parse(s[1..]), env), Render(Parse(t), env));
    }
  }

  /** An unclosed `${` keeps its whole remainder. */
  lemma UnclosedKeepsRemainder(s: string, t: string, env: Env)
    requires AllClosed(s) && '}' !in t
    ensures Render(Parse(s + (OPEN + t)), env) == Render(Parse(s), env) + (OPEN + t)
  {
    var unclosed := OPEN + t;
    assert unclosed[2..] == t && OpensAt(unclosed, 0);
    UpToBraceIsPrefix(t);
    RenderUnclosed(unclosed, env);
    InterpolationComposes(s, unclosed, env);
  }

  /** Theorem: a variable is replaced by its value in the environment, or by nothing when it is not set there. */
  lemma VariableIsReplaced(s: string, name: string, t: string, env: Env)
    requires AllClosed(s) && '}' !in name
    ensures Render(Parse(s + ("${" + name + "}" + t)), env)
            == Render(Parse(s), env) + ((if name in env then env[name] else "") + Render(Parse(t), env))
  {
    var opening := "${" + name + "}" + t;
    assert opening[2..] == name + "}" + t && OpensAt(opening, 0);
    BraceEndsName(name, t);
    assert opening[|name| + 3..] == t;
    RenderVariable(opening, name, env);
    InterpolationComposes(s, opening, env);
  }

  lemma {:induction false} BraceEndsName(name: string, t: string)
    requires '}' !in name
    ensures UpToBrace(name + "}" + t) == Some(name)
    decreases |name|
  {
    var s := name + "}" + t;
    if name != "" {
      assert s[1..] == name[1..] + "}" + t;
      assert name[0] in name && name == [name[0]] + name[1..];
      BraceEndsName(name[1..], t);
    }
  }

  // ---------- Validation ----------

  datatype ConfigError =
    | NoServers
    | EmptyAlias
    | ReservedAlias(alias: string)
    | DuplicateAlias(alias: string)
    | EmptyUrl(alias: string)

  predicate ContainsSeparator(alias: string) {
    exists i :: 0 <= i < |alias| && SeparatorAt(alias, i)
  }

  /** What is wrong with a server, the servers before it being given. The first complaint counts. */
  function Complaint(servers: seq<ServerConfig>, i: nat): Option<ConfigError>
    requires i < |servers|
  {
    var s := servers[i];
    if s.alias == "" then Some(EmptyAlias)
    else if ContainsSeparator(s.alias) then Some(ReservedAlias(s.alias))
    else if exists j :: 0 <= j < i && servers[j].alias == s.alias then Some(DuplicateAlias(s.alias))
    else if s.url == "" then Some(EmptyUrl(s.alias))
    else None
  }

  /** The complaints in the order of the source, by the servers' own fields. */
  lemma ComplaintExactly(servers: seq<ServerConfig>, i: nat)
    requires i < |servers|
    ensures var alias, url, c := servers[i].alias, servers[i].url, Complaint(servers, i);
            var reserved := exists k :: 0 <= k < |alias| - 1 && alias[k] == '_' && alias[k + 1] == '_';
            var taken := exists j :: 0 <= j < i && servers[j].alias == alias;
            && (c == Some(EmptyAlias) <==> alias == "")
            && (c == Some(ReservedAlias(alias)) <==> reserved)
            && (c == Some(DuplicateAlias(alias)) <==> alias != "" && !reserved && taken)
            && (c == Some(EmptyUrl(alias)) <==> alias != "" && !reserved && !taken && url == "")
            && (c == None <==> alias != "" && !reserved && !taken && url != "")
  {
    var alias := servers[i].alias;
    if k :| 0 <= k < |alias| - 1 && alias[k] == '_' && alias[k + 1] == '_' {
      assert SeparatorAt(alias, k);
    }
  }

  method Validate(servers: seq<ServerConfig>) returns (r: Result<(), ConfigError>)
    ensures r.Ok? <==> servers != [] && forall i :: 0 <= i < |servers| ==> Complaint(servers, i).None?
    ensures servers == [] ==> r == Err(NoServers)
    ensures servers != [] && r.Err? ==>
              exists i: nat :: i < |servers| && Complaint(servers, i) == Some(r.error)
                && forall j :: 0 <= j < i ==> Complaint(servers, j).None?
  {
    if servers == [] {
      return Err(NoServers);
    }
    var aliases: set<string> := {};
    for i := 0 to |servers|
      invariant forall j :: 0 <= j < i ==> Complaint(servers, j).None?
      invariant forall a :: a in aliases <==> exists j :: 0 <= j < i && servers[j].alias == a
    {
      var server := servers[i];
      ghost var complaint := Complaint(servers, i);
      if server.alias == "" {
        assert complaint == Some(EmptyAlias);
        return Err(EmptyAlias);
      }
      if ContainsSeparator(server.alias) {
        assert complaint == Some(ReservedAlias(server.alias));
        return Err(ReservedAlias(server.alias));
      }
      if server.alias in aliases {
        assert complaint == Some(DuplicateAlias(server.alias));
        return Err(DuplicateAlias(server.alias));
      }
      aliases := aliases + {server.alias};
      if server.url == "" {
        assert complaint == Some(EmptyUrl(server.alias));
        return Err(EmptyUrl(server.alias));
      }
    }
    return Ok(());
  }

  predicate EndsInUnderscore(alias: string) {
    alias != "" && alias[|alias| - 1] == '_'
  }

  predicate Validated(servers: seq<ServerConfig>) {
    servers != [] && forall i :: 0 <= i < |servers| ==> Complaint(servers, i).None?
  }

  /** A validated file has distinct aliases, as a reload requires. Its tools can all be routed exactly when, besides, no
      alias ends in an underscore and none is the native prefix: validation does not look for these. */
  lemma ValidatedAliases(servers: seq<ServerConfig>)
    requires Validated(servers)
    ensures DistinctAliases(servers)
    ensures (forall s :: s in servers ==> Routable(s.alias))
            <==> forall s :: s in servers ==> !EndsInUnderscore(s.alias) && s.alias != FEDERATION
  {
    forall i, j | 0 <= i < j < |servers|
      ensures servers[i].alias != servers[j].alias
    {
      assert Complaint(servers, j).None?;
    }
    forall s | s in servers
      ensures s.alias != "" && (WellFormed(s.alias) <==> !EndsInUnderscore(s.alias))
    {
      var i :| 0 <= i < |servers| && servers[i] == s;
      assert Complaint(servers, i).None?;
    }
  }

  /** Such a file: the alias `a_` is accepted, and every call of its tools goes to the alias `a` instead. */
  lemma UnderscoreAliasIsAccepted(server: ServerConfig, tool: string)
    requires server.alias == "a_" && server.url != ""
    ensures Validated([server])
    ensures Namespacing.Parse(Namespaced(server.alias, tool)) == Some(("a", "_" + tool))
  {
    assert Complaint([server], 0).None?;
    assert "a" + "_" == "a_";
    TrailingUnderscoreCollides("a", tool);
  }
}
