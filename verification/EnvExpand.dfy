/**
 src/server/ServerConfig.cc, expandEnvVars: the index scanner that replaces $VAR and ${VAR},
 proved equal to an expansion token by token.
 */
module EnvExpand {
  import opened Common

  type Environment = map<string, string>

  predicate NameChar(c: char) {
    'A' <= c <= 'Z' || 'a' <= c <= 'z' || '0' <= c <= '9' || c == '_'
  }

  predicate IsName(s: string) {
    forall i | 0 <= i < |s| :: NameChar(s[i])
  }

  /** The length of the longest prefix of name characters. */
  function NameLength(s: string): (n: nat)
    ensures n <= |s| && IsName(s[..n])
    ensures n < |s| ==> !NameChar(s[n])
  {
    if s == "" || !NameChar(s[0]) then 0 else 1 + NameLength(s[1..])
  }

  // ----- tokens ----------------------------------------------------------------------------

  datatype Token =
    | Plain(c: char)                         // any character but '$'
    | Dollar                                 // "$" with no name after it
    | EmptyBraces                            // "${}"
    | Unclosed(name: string)                 // "${" and a name without '}'
    | Variable(name: string, braced: bool)   // "$name" or "${name}"

  function Text(t: Token): string {
    match t
    case Plain(c) => [c]
    case Dollar => "$"
    case EmptyBraces => "${}"
    case Unclosed(name) => "${" + name
    case Variable(name, braced) => if braced then "${" + name + "}" else "$" + name
  }

  function Render(t: Token, env: Environment): string {
    match t
    case EmptyBraces => "$"
    case Variable(name, _) => if name in env then env[name] else Text(t)
    case _ => Text(t)
  }

  predicate WellFormed(t: Token) {
    match t
    case Plain(c) => c != '$'
    case Unclosed(name) => IsName(name)
    case Variable(name, _) => name != "" && IsName(name)
    case _ => true
  }

  /** The token at the head of a text. */
  function Next(s: string): (t: Token)
    requires s != ""
    ensures WellFormed(t)
    ensures 0 < |Text(t)| <= |s| && s[..|Text(t)|] == Text(t)
  {
    if s[0] != '$' then Plain(s[0])
    else if |s| > 1 && s[1] == '{' then
      var n := NameLength(s[2..]);
      var name := s[2..][..n];
      if 2 + n < |s| && s[2 + n] == '}' then
        if n == 0 then EmptyBraces else Variable(name, true)
      else Unclosed(name)
    else
      var n := NameLength(s[1..]);
      if n == 0 then Dollar else Variable(s[1..][..n], false)
  }

  function Rest(s: string): (r: string)
    requires s != ""
    ensures |r| < |s| && s == Text(Next(s)) + r
  {
    s[|Text(Next(s))|..]
  }

  function Tokens(s: string): seq<Token>
    decreases |s|
  {
    if s == "" then [] else [Next(s)] + Tokens(Rest(s))
  }

  /** The specification: every token rendered by itself. */
  function Expand(s: string, env: Environment): string
    decreases |s|
  {
    if s == "" then "" else Render(Next(s), env) + Expand(Rest(s), env)
  }

  function Texts(ts: seq<Token>): string {
    if ts == [] then "" else Text(ts[0]) + Texts(ts[1..])
  }

  function Renders(ts: seq<Token>, env: Environment): string {
    if ts == [] then "" else Render(ts[0], env) + Renders(ts[1..], env)
  }

  // ----- tokens partition the text and every '$' starts one --------------------------------------

  lemma NameHasNoDollar(name: string)
    requires IsName(name)
    ensures '$' !in name && '$' !in "{" + name && '$' !in "{" + name + "}"
  {
  }

  lemma NoInnerDollar(t: Token)
    requires WellFormed(t)
    ensures '$' !in Text(t)[1..]
  {
    match t
    case Variable(name, braced) =>
      NameHasNoDollar(name);
      assert Text(t)[1..] == if braced then "{" + name + "}" else name;
    case Unclosed(name) =>
      NameHasNoDollar(name);
      assert Text(t)[1..] == "{" + name;
    case _ =>
  }

  lemma {:induction false} TokensPartition(s: string, env: Environment)
    ensures Texts(Tokens(s)) == s
    ensures Renders(Tokens(s), env) == Expand(s, env)
    ensures forall t | t in Tokens(s) :: WellFormed(t) && Text(t) != "" && '$' !in Text(t)[1..]
    decreases |s|
  {
    if s == "" {
    } else {
      TokensPartition(Rest(s), env);
      NoInnerDollar(Next(s));
      assert Tokens(s)[1..] == Tokens(Rest(s));
      assert Text(Next(s)) != "";
    }
  }

  /** The characters of a name, by their ASCII codes: digits, letters and the underscore. */
  lemma NameCharsAre(c: char)
    ensures NameChar(c) <==>
              48 <= c as int <= 57 || 65 <= c as int <= 90 || 97 <= c as int <= 122 || c as int == 95
  {
  }

  // ----- expansion distributes over concatenation -------------------------------------------------------

  /** Text that cannot continue a token begun before it; what starts with '$' is of this kind. */
  predicate StartsFresh(b: string) {
    b != "" ==> !NameChar(b[0]) && b[0] != '{' && b[0] != '}'
  }

  lemma {:induction false} NameLengthConcat(a: string, b: string)
    requires StartsFresh(b)
    ensures NameLength(a + b) == NameLength(a)
    decreases |a|
  {
    if a == "" {
      assert a + b == b;
    } else {
      assert (a + b)[1..] == a[1..] + b;
      NameLengthConcat(a[1..], b);
    }
  }

  lemma BracedNext(s: string, n: nat)
    requires |s| > 1 && s[0] == '$' && s[1] == '{' && n == NameLength(s[2..])
    ensures Next(s) == if 2 + n < |s| && s[2 + n] == '}'
                       then if n == 0 then EmptyBraces else Variable(s[2..2 + n], true)
                       else Unclosed(s[2..2 + n])
  {
    assert s[2..][..n] == s[2..2 + n];
  }

  lemma BareNext(s: string, n: nat)
    requires s != "" && s[0] == '$' && (|s| > 1 ==> s[1] != '{') && n == NameLength(s[1..])
    ensures Next(s) == if n == 0 then Dollar else Variable(s[1..1 + n], false)
  {
    assert s[1..][..n] == s[1..1 + n];
  }

  lemma BracedNextConcat(a: string, b: string)
    requires |a| > 1 && a[0] == '$' && a[1] == '{' && StartsFresh(b)
    ensures Next(a + b) == Next(a)
  {
    var s, n := a + b, NameLength(a[2..]);
    assert NameLength(s[2..]) == n by {
      assert s[2..] == a[2..] + b;
      NameLengthConcat(a[2..], b);
    }
    BracedNext(a, n);
    BracedNext(s, n);
    assert s[2..2 + n] == a[2..2 + n];
    if 2 + n < |a| {
      assert s[2 + n] == a[2 + n];
    } else if b != "" {
      assert s[2 + n] == b[0];
    }
  }

  lemma BareNextConcat(a: string, b: string)
    requires a != "" && a[0] == '$' && (|a| > 1 ==> a[1] != '{') && StartsFresh(b)
    ensures Next(a + b) == Next(a)
  {
    var s, n := a + b, NameLength(a[1..]);
    assert NameLength(s[1..]) == n by {
      assert s[1..] == a[1..] + b;
      NameLengthConcat(a[1..], b);
    }
    BareNext(a, n);
    BareNext(s, n);
    assert s[1..1 + n] == a[1..1 + n];
  }

  lemma NextConcat(a: string, b: string)
    requires a != "" && (StartsFresh(b) || a[0] != '$')
    ensures Next(a + b) == Next(a)
  {
    if a[0] == '$' {
      if |a| > 1 && a[1] == '{' {
        BracedNextConcat(a, b);
      } else {
        BareNextConcat(a, b);
      }
    }
  }

  lemma ExpandHead(s: string, t: Token, r: string, env: Environment)
    requires s != "" && Next(s) == t && s == Text(t) + r
    ensures Expand(s, env) == Render(t, env) + Expand(r, env)
  {
    assert Rest(s) == r;
  }

  /** expand(a + b) = expand(a) + expand(b) whenever b cannot continue a token of a. */
  lemma {:induction false} ExpandConcat(a: string, b: string, env: Environment)
    requires StartsFresh(b) || '$' !in a
    ensures Expand(a + b, env) == Expand(a, env) + Expand(b, env)
    decreases |a|
  {
    if a == "" {
      assert a + b == b;
    } else {
      var t, r := Next(a), Rest(a);
      NextConcat(a, b);
      ConcatAssoc(Text(t), r, b);
      ExpandHead(a + b, t, r + b, env);
      assert forall c | c in r :: c in a;
      ExpandConcat(r, b, env);
      ConcatAssoc(Render(t, env), Expand(r, env), Expand(b, env));
    }
  }

  lemma {:induction false} NameLengthFull(name: string, tail: string)
    requires IsName(name) && (tail != "" ==> !NameChar(tail[0]))
    ensures NameLength(name + tail) == |name|
    decreases |name|
  {
    if name == "" {
      assert name + tail == tail;
    } else {
      assert (name + tail)[1..] == name[1..] + tail;
      NameLengthFull(name[1..], tail);
    }
  }

  lemma BracedVariable(name: string, b: string)
    requires name != "" && IsName(name)
    ensures Next("${" + name + "}" + b) == Variable(name, true)
  {
    var s := "${" + name + "}" + b;
    assert s[2..] == name + ("}" + b);
    NameLengthFull(name, "}" + b);
    BracedNext(s, |name|);
    assert s[2..2 + |name|] == name;
  }

  lemma BareVariable(name: string, b: string)
    requires name != "" && IsName(name) && (b != "" ==> !NameChar(b[0]))
    ensures Next("$" + name + b) == Variable(name, false)
  {
    var s := "$" + name + b;
    assert s[1..] == name + b;
    NameLengthFull(name, b);
    assert NameChar(name[0]) && s[1] == name[0];
    BareNext(s, |name|);
    assert s[1..1 + |name|] == name;
  }

  /** A substituted value is copied as it is, whatever characters it contains and whatever stands
      around it; only a bare name must not run on into what follows. */
  lemma SubstitutedVerbatim(a: string, name: string, braced: bool, b: string, env: Environment)
    requires name != "" && IsName(name) && name in env
    requires !braced && b != "" ==> !NameChar(b[0])
    ensures Expand(a + (Text(Variable(name, braced)) + b), env) == Expand(a, env) + (env[name] + Expand(b, env))
  {
    var t := Variable(name, braced);
    var s := Text(t) + b;
    if braced {
      assert s == "${" + name + "}" + b;
      BracedVariable(name, b);
    } else {
      assert s == "$" + name + b;
      BareVariable(name, b);
    }
    ExpandHead(s, t, b, env);
    ExpandConcat(a, s, env);
  }

  // ----- nothing bound ---------------------------------------------------------------------------------------

  predicate StartsWithEmptyBraces(s: string) {
    |s| >= 3 && s[0] == '$' && s[1] == '{' && s[2] == '}'
  }

  /** The text with each "${}" replaced by "$". */
  function CollapseEmptyBraces(s: string): string {
    if s == "" then ""
    else if StartsWithEmptyBraces(s) then "$" + CollapseEmptyBraces(s[3..])
    else [s[0]] + CollapseEmptyBraces(s[1..])
  }

  lemma {:induction false} CollapsePlain(t: string, r: string)
    requires '$' !in t
    ensures CollapseEmptyBraces(t + r) == t + CollapseEmptyBraces(r)
    decreases |t|
  {
    if t == "" {
      assert t + r == r;
    } else {
      assert t[0] in t;
      assert (t + r)[1..] == t[1..] + r;
      assert forall c | c in t[1..] :: c in t;
      CollapsePlain(t[1..], r);
      assert t == [t[0]] + t[1..];
      ConcatAssoc([t[0]], t[1..], CollapseEmptyBraces(r));
    }
  }

  lemma EmptyBracesNext(s: string)
    requires s != ""
    ensures StartsWithEmptyBraces(s) ==> Next(s) == EmptyBraces
  {
    if StartsWithEmptyBraces(s) {
      assert s[2..][0] == '}';
      BracedNext(s, 0);
    }
  }

  lemma CollapseToken(s: string)
    requires s != "" && Next(s) != EmptyBraces
    ensures CollapseEmptyBraces(s) == Text(Next(s)) + CollapseEmptyBraces(Rest(s))
  {
    var t, r := Text(Next(s)), Rest(s);
    EmptyBracesNext(s);
    NoInnerDollar(Next(s));
    assert s[1..] == t[1..] + r;
    CollapsePlain(t[1..], r);
    assert t == [t[0]] + t[1..];
    ConcatAssoc([t[0]], t[1..], CollapseEmptyBraces(r));
  }

  ghost predicate NothingBound(s: string, env: Environment) {
    forall t | t in Tokens(s) :: t.Variable? ==> t.name !in env
  }

  /** With none of the referenced names bound, only "${}" changes. */
  lemma {:induction false} UnboundExpansion(s: string, env: Environment)
    requires NothingBound(s, env)
    ensures Expand(s, env) == CollapseEmptyBraces(s)
    decreases |s|
  {
    if s == "" {
    } else {
      assert Tokens(s) == [Next(s)] + Tokens(Rest(s));
      assert Next(s) in Tokens(s);
      assert NothingBound(Rest(s), env) by {
        forall t | t in Tokens(Rest(s))
          ensures t in Tokens(s)
        {
        }
      }
      UnboundExpansion(Rest(s), env);
      if Next(s) == EmptyBraces {
        assert s == "${}" + Rest(s);
        assert s[3..] == Rest(s);
      } else {
        CollapseToken(s);
      }
    }
  }

  // ----- the scanner --------------------------------------------------------------------------------------------

  method ScanName(s: string, from: nat) returns (i: nat)
    requires from <= |s|
    ensures from <= i <= |s| && i - from == NameLength(s[from..])
  {
    i := from;
    while i < |s| && NameChar(s[i])
      invariant from <= i <= |s|
      invariant NameLength(s[from..]) == (i - from) + NameLength(s[i..])
    {
      assert s[i..][0] == s[i] && s[i..][1..] == s[i + 1..];
      i := i + 1;
    }
    assert i < |s| ==> s[i..][0] == s[i];
  }

  lemma BracedToken(s: string, dollar: nat, nameEnd: nat)
    requires dollar + 1 < |s| && s[dollar] == '$' && s[dollar + 1] == '{'
    requires dollar + 2 <= nameEnd <= |s| && nameEnd - (dollar + 2) == NameLength(s[dollar + 2..])
    ensures var name := s[dollar + 2..nameEnd];
            Next(s[dollar..]) == if nameEnd < |s| && s[nameEnd] == '}'
                                 then if name == "" then EmptyBraces else Variable(name, true)
                                 else Unclosed(name)
  {
    var tail, n := s[dollar..], nameEnd - (dollar + 2);
    assert tail[2..] == s[dollar + 2..];
    BracedNext(tail, n);
    assert tail[2..2 + n] == s[dollar + 2..nameEnd];
  }

  lemma BareToken(s: string, dollar: nat, nameEnd: nat)
    requires dollar < |s| && s[dollar] == '$' && (dollar + 1 < |s| ==> s[dollar + 1] != '{')
    requires dollar + 1 <= nameEnd <= |s| && nameEnd - (dollar + 1) == NameLength(s[dollar + 1..])
    ensures var name := s[dollar + 1..nameEnd];
            Next(s[dollar..]) == if name == "" then Dollar else Variable(name, false)
  {
    var tail, n := s[dollar..], nameEnd - (dollar + 1);
    assert tail[1..] == s[dollar + 1..];
    BareNext(tail, n);
    assert tail[1..1 + n] == s[dollar + 1..nameEnd];
  }

  /** getenv, and the original token where the variable is not set. */
  method Lookup(varname: string, braced: bool, env: Environment) returns (piece: string)
    ensures piece == Render(Variable(varname, braced), env)
  {
    if varname in env {
      piece := env[varname];
    } else {
      piece := "$";
      if braced {
        piece := piece + "{";
      }
      piece := piece + varname;
      if braced {
        piece := piece + "}";
      }
    }
  }

  /** What the scanner does at a '$': the index it goes on from and the text it appends. */
  method ScanDollar(s: string, dollar: nat, env: Environment) returns (i: nat, piece: string)
    requires dollar < |s| && s[dollar] == '$'
    ensures dollar < i <= |s| && i - dollar == |Text(Next(s[dollar..]))|
    ensures piece == Render(Next(s[dollar..]), env)
  {
    i := dollar + 1;
    var braced := i < |s| && s[i] == '{';
    if braced {
      i := i + 1;
    }
    var start := i;
    i := ScanName(s, start);
    var varname := s[start..i];
    if braced {
      BracedToken(s, dollar, i);
      if i < |s| && s[i] == '}' {
        i := i + 1;
      } else {
        return i, "${" + varname;
      }
    } else {
      BareToken(s, dollar, i);
    }
    if varname == "" {
      return i, "$";
    }
    piece := Lookup(varname, braced, env);
  }

  lemma TokenDone(s: string, from: nat, to: nat, done: string, piece: string, env: Environment)
    requires from < to <= |s| && to - from == |Text(Next(s[from..]))|
    requires piece == Render(Next(s[from..]), env)
    ensures (done + piece) + Expand(s[to..], env) == done + Expand(s[from..], env)
  {
    assert Rest(s[from..]) == s[to..];
    ConcatAssoc(done, piece, Expand(s[to..], env));
  }

  /** expandEnvVars. */
  method ExpandEnvVars(s: string, env: Environment) returns (result: string)
    ensures result == Expand(s, env)
  {
    result := "";
    var i := 0;
    assert s[0..] == s;
    while i < |s|
      invariant 0 <= i <= |s|
      invariant result + Expand(s[i..], env) == Expand(s, env)
    {
      if s[i] != '$' {
        TokenDone(s, i, i + 1, result, [s[i]], env);
        result := result + [s[i]];
        i := i + 1;
        continue;
      }
      var next, piece := ScanDollar(s, i, env);
      TokenDone(s, i, next, result, piece, env);
      result := result + piece;
      i := next;
    }
  }
}
