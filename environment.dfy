/**
 The environment a build step runs with: the host's environment, then the
 project's declarations, then the step's, each declared value expanded
 (as Go's `os.Expand` does) against the table built so far, where
 `BUILD_ROOT` is reserved for the build root and an unknown name is empty.
 */
module Environment {
  import opened Text

  /** The reserved variable name that always stands for the build root. */
  const BuildRootVariable := "BUILD_ROOT"

  /** `stepGetenv`: the value a reference to `name` expands to while the
      working table is `table`. */
  function Getenv(root: string, table: map<string, string>, name: string): (v: string)
    ensures name == BuildRootVariable ==> v == root
    ensures name != BuildRootVariable && name in table ==> v == table[name]
    ensures name != BuildRootVariable && name !in table ==> v == ""
  {
    if name == BuildRootVariable then root
    else if name in table then table[name]
    else ""
  }

  /** Characters that form a one-character shell variable name (`$1`, `$?`). */
  predicate IsSpecial(c: char)
  {
    c in "*#$@!?-0123456789"
  }

  predicate IsAlphaNum(c: char)
  {
    c == '_' || '0' <= c <= '9' || 'a' <= c <= 'z' || 'A' <= c <= 'Z'
  }

  /** Length of the longest prefix of `t` made of letters, digits and `_`. */
  function AlphaNumPrefix(t: string): (n: nat)
    ensures n <= |t|
    ensures forall i :: 0 <= i < n ==> IsAlphaNum(t[i])
    ensures n < |t| ==> !IsAlphaNum(t[n])
  {
    if |t| == 0 || !IsAlphaNum(t[0]) then 0 else 1 + AlphaNumPrefix(t[1..])
  }

  /** The position of the first `}` in `t` at or after `i`, or `|t|`. */
  function BraceEnd(t: string, i: nat): (j: nat)
    requires i <= |t|
    ensures i <= j <= |t|
    ensures j < |t| ==> t[j] == '}'
    ensures forall k :: i <= k < j ==> t[k] != '}'
    decreases |t| - i
  {
    if i == |t| || t[i] == '}' then i else BraceEnd(t, i + 1)
  }

  /** Go's `getShellName`: the variable name that follows a `$` at the
      start of `t`, and how many characters of `t` the reference occupies.
      An empty name with a positive width is bad syntax, which `Expand`
      drops. */
  function ShellName(t: string): (r: (string, nat))
    requires |t| > 0
    ensures r.1 <= |t|
    ensures t[0] != '{' ==> r.0 == t[..r.1]
    ensures t[0] == '{' && r.0 != "" ==> r.1 == |r.0| + 2 && r.0 == t[1..r.1 - 1] && t[r.1 - 1] == '}'
    ensures r.1 == 0 <==> t[0] != '{' && !IsSpecial(t[0]) && !IsAlphaNum(t[0])
  {
    if t[0] == '{' then
      if |t| > 2 && IsSpecial(t[1]) && t[2] == '}' then
        (t[1..2], 3)
      else
        var j := BraceEnd(t, 1);
        if j == |t| then ("", 1)          // no closing brace: drop "${"
        else if j == 1 then ("", 2)       // "${}": drop it
        else (t[1..j], j + 1)
    else if IsSpecial(t[0]) then
      (t[..1], 1)
    else
      var n := AlphaNumPrefix(t);
      (t[..n], n)
  }

  /** Length of the longest prefix of `s` without `$`. */
  function LiteralPrefix(s: string): (n: nat)
    ensures n <= |s|
    ensures '$' !in s[..n]
    ensures n < |s| ==> s[n] == '$'
  {
    if |s| == 0 || s[0] == '$' then 0 else 1 + LiteralPrefix(s[1..])
  }

  /** Go's `os.Expand(s, stepGetenv)` with the working table `table`:
      every `$NAME` or `${NAME}` is replaced by its value; a `$` that starts
      no name is kept. The text before the first `$` is copied as is. */
  function Expand(s: string, root: string, table: map<string, string>): (r: string)
    ensures LiteralPrefix(s) <= |r| && r[..LiteralPrefix(s)] == s[..LiteralPrefix(s)]
    decreases |s|
  {
    if |s| == 0 then
      ""
    else if s[0] == '$' && |s| > 1 then
      var (name, width) := ShellName(s[1..]);
      var value := if name != "" then Getenv(root, table, name) else if width > 0 then "" else "$";
      value + Expand(s[1 + width..], root, table)
    else
      [s[0]] + Expand(s[1..], root, table)
  }

  /** A value without `$` expands to itself. */
  lemma {:induction false} ExpandLiteral(s: string, root: string, table: map<string, string>)
    requires '$' !in s
    ensures Expand(s, root, table) == s
    decreases |s|
  {
    if |s| > 0 {
      ExpandLiteral(s[1..], root, table);
      assert s == [s[0]] + s[1..];
    }
  }

  /** After `$`, `{NAME}` is read as the name `NAME`, and the reference
      occupies the braces and the name. */
  lemma BracedShellName(name: string, rest: string)
    requires name != "" && '}' !in name
    ensures ShellName("{" + name + "}" + rest) == (name, |name| + 2)
  {
    var t := "{" + name + "}" + rest;
    assert t[1 + |name|] == '}';
    assert forall k :: 1 <= k < 1 + |name| ==> t[k] == name[k - 1];
    if |t| > 2 && IsSpecial(t[1]) && t[2] == '}' {
      assert |name| == 1;
      assert t[1..2] == name;
    } else {
      assert BraceEnd(t, 1) == 1 + |name|;
      assert t[1..1 + |name|] == name;
    }
  }

  /** `${NAME}` expands to the looked-up value of `NAME`. */
  lemma ExpandBraced(name: string, rest: string, root: string, table: map<string, string>)
    requires name != "" && '}' !in name
    ensures Expand("${" + name + "}" + rest, root, table) == Getenv(root, table, name) + Expand(rest, root, table)
  {
    var s := "${" + name + "}" + rest;
    assert s[1..] == "{" + name + "}" + rest;
    BracedShellName(name, rest);
    assert s[1 + |name| + 2..] == rest;
  }

  /** After `$`, a run `NAME` of letters, digits and `_` that does not
      start with a special character is read whole as the name. */
  lemma BareShellName(name: string, rest: string)
    requires name != "" && !IsSpecial(name[0]) && name[0] != '{'
    requires forall i :: 0 <= i < |name| ==> IsAlphaNum(name[i])
    requires rest == "" || !IsAlphaNum(rest[0])
    ensures ShellName(name + rest) == (name, |name|)
  {
    var t := name + rest;
    assert AlphaNumPrefix(t) == |name| by {
      assert forall i :: 0 <= i < |name| ==> IsAlphaNum(t[i]);
      assert |name| < |t| ==> !IsAlphaNum(t[|name|]);
    }
    assert t[..|name|] == name;
  }

  /** `$NAME` expands to the looked-up value of `NAME` when `NAME` is a run
      of letters, digits and `_` that does not start with a digit and is
      not followed by another such character. */
  lemma ExpandBare(name: string, rest: string, root: string, table: map<string, string>)
    requires name != "" && !IsSpecial(name[0]) && name[0] != '{'
    requires forall i :: 0 <= i < |name| ==> IsAlphaNum(name[i])
    requires rest == "" || !IsAlphaNum(rest[0])
    ensures Expand("$" + name + rest, root, table) == Getenv(root, table, name) + Expand(rest, root, table)
  {
    var s := "$" + name + rest;
    assert s[1..] == name + rest;
    BareShellName(name, rest);
    assert s[1 + |name|..] == rest;
  }

  /** `$BUILD_ROOT` followed by a literal path such as `/out` names that
      path under the build root, whatever the working table says about
      `BUILD_ROOT`. */
  lemma ExpandBuildRootPath(path: string, root: string, table: map<string, string>)
    requires '$' !in path && (path == "" || !IsAlphaNum(path[0]))
    ensures Expand("$" + BuildRootVariable + path, root, table) == root + path
  {
    var name := BuildRootVariable;
    assert forall i :: 0 <= i < |name| ==> IsAlphaNum(name[i]);
    ExpandBare(name, path, root, table);
    ExpandLiteral(path, root, table);
  }

  /** A reference to a name that is neither reserved nor in the working
      table expands to nothing. */
  lemma ExpandUnresolved(name: string, root: string, table: map<string, string>)
    requires name != "" && '}' !in name
    requires name != BuildRootVariable && name !in table
    ensures Expand("${" + name + "}", root, table) == ""
  {
    ExpandBraced(name, "", root, table);
    assert "${" + name + "}" + "" == "${" + name + "}";
  }

  /** The working table after the declarations of `env` named by `order`
      have been applied one by one, each value expanded against the table
      as it stands at that point. */
  function ApplyAll(table: map<string, string>, env: map<string, string>, order: seq<string>, root: string): (r: map<string, string>)
    requires forall k :: k in order ==> k in env
    ensures forall k :: k in r <==> k in table || k in order
    ensures forall k :: k in table && k !in order ==> r[k] == table[k]
    decreases |order|
  {
    if order == [] then
      table
    else
      var before := ApplyAll(table, env, order[..|order| - 1], root);
      var name := order[|order| - 1];
      before[name := Expand(env[name], root, before)]
  }

  /** The declaration applied at position `i` ends up with the expansion of
      its value against the table as it stood just before it: nothing
      applied later overwrites it. */
  lemma {:induction false} ApplyAllAt(table: map<string, string>, env: map<string, string>, order: seq<string>, root: string, i: nat)
    requires forall k :: k in order ==> k in env
    requires Distinct(order) && i < |order|
    ensures ApplyAll(table, env, order, root)[order[i]] == Expand(env[order[i]], root, ApplyAll(table, env, order[..i], root))
    decreases |order|
  {
    var init := order[..|order| - 1];
    if i < |order| - 1 {
      assert order[i] != order[|order| - 1];
      assert init[..i] == order[..i];
      assert Distinct(init);
      ApplyAllAt(table, env, init, root, i);
    } else {
      assert init == order[..i];
    }
  }

  /** A declaration whose value contains no reference is simply copied
      into the table, in whatever order the declarations are applied. */
  lemma {:induction false} ApplyAllLiteral(table: map<string, string>, env: map<string, string>, order: seq<string>, root: string, name: string)
    requires forall k :: k in order ==> k in env
    requires name in order && '$' !in env[name]
    ensures ApplyAll(table, env, order, root)[name] == env[name]
    decreases |order|
  {
    var init := order[..|order| - 1];
    if name == order[|order| - 1] {
      ExpandLiteral(env[name], root, ApplyAll(table, env, init, root));
    } else {
      assert order == init + [order[|order| - 1]];
      ApplyAllLiteral(table, env, init, root, name);
    }
  }

  /** The table a step runs with: the host's entries, then the project's
      declarations in `projectOrder`, then the step's in `stepOrder`. */
  function Resolved(
    root: string, host: map<string, string>, projectEnv: map<string, string>, stepEnv: map<string, string>,
    projectOrder: seq<string>, stepOrder: seq<string>): (r: map<string, string>)
    requires Enumerates(projectOrder, projectEnv.Keys) && Enumerates(stepOrder, stepEnv.Keys)
    ensures r.Keys == host.Keys + projectEnv.Keys + stepEnv.Keys
  {
    ApplyAll(ApplyAll(host, projectEnv, projectOrder, root), stepEnv, stepOrder, root)
  }

  /** A host entry that neither the project nor the step declares passes
      through unchanged. */
  lemma HostPassesThrough(
    root: string, host: map<string, string>, projectEnv: map<string, string>, stepEnv: map<string, string>,
    projectOrder: seq<string>, stepOrder: seq<string>, name: string)
    requires Enumerates(projectOrder, projectEnv.Keys) && Enumerates(stepOrder, stepEnv.Keys)
    requires name in host && name !in projectEnv && name !in stepEnv
    ensures Resolved(root, host, projectEnv, stepEnv, projectOrder, stepOrder)[name] == host[name]
  {
  }

  /** A step declaration wins over the project's and the host's: the
      step's variable `stepOrder[i]` holds the expansion of the step's own
      value, against the table the project declarations (and the step
      declarations applied before it) left. */
  lemma StepDeclarationWins(
    root: string, host: map<string, string>, projectEnv: map<string, string>, stepEnv: map<string, string>,
    projectOrder: seq<string>, stepOrder: seq<string>, i: nat)
    requires Enumerates(projectOrder, projectEnv.Keys) && Enumerates(stepOrder, stepEnv.Keys)
    requires i < |stepOrder|
    ensures var projectTable := ApplyAll(host, projectEnv, projectOrder, root);
            Resolved(root, host, projectEnv, stepEnv, projectOrder, stepOrder)[stepOrder[i]]
            == Expand(stepEnv[stepOrder[i]], root, ApplyAll(projectTable, stepEnv, stepOrder[..i], root))
  {
    ApplyAllAt(ApplyAll(host, projectEnv, projectOrder, root), stepEnv, stepOrder, root, i);
  }

  /** A step value `$BUILD_ROOT/out` (or any other literal path after
      `$BUILD_ROOT`) resolves to `<root>/out`, even when the host or the
      project defines `BUILD_ROOT`. */
  lemma StepBuildRootReference(
    root: string, host: map<string, string>, projectEnv: map<string, string>, stepEnv: map<string, string>,
    projectOrder: seq<string>, stepOrder: seq<string>, name: string, path: string)
    requires Enumerates(projectOrder, projectEnv.Keys) && Enumerates(stepOrder, stepEnv.Keys)
    requires '$' !in path && (path == "" || !IsAlphaNum(path[0]))
    requires name in stepEnv && stepEnv[name] == "$" + BuildRootVariable + path
    ensures Resolved(root, host, projectEnv, stepEnv, projectOrder, stepOrder)[name] == root + path
  {
    var i :| 0 <= i < |stepOrder| && stepOrder[i] == name;
    StepDeclarationWins(root, host, projectEnv, stepEnv, projectOrder, stepOrder, i);
    var projectTable := ApplyAll(host, projectEnv, projectOrder, root);
    ExpandBuildRootPath(path, root, ApplyAll(projectTable, stepEnv, stepOrder[..i], root));
  }

  /** With project `FOO=1` and step `FOO=2` the step sees `FOO=2`, in
      whichever order the declarations are visited. */
  lemma StepOverridesProject(
    root: string, host: map<string, string>, projectOrder: seq<string>, stepOrder: seq<string>)
    requires Enumerates(projectOrder, {"FOO"}) && Enumerates(stepOrder, {"FOO"})
    ensures Resolved(root, host, map["FOO" := "1"], map["FOO" := "2"], projectOrder, stepOrder)["FOO"] == "2"
  {
    var projectTable := ApplyAll(host, map["FOO" := "1"], projectOrder, root);
    ApplyAllLiteral(projectTable, map["FOO" := "2"], stepOrder, root, "FOO");
  }

  /** `ExpandEnvironment`: the `NAME=VALUE` list a step runs with. The
      declarations of each map are applied in Go's map order, which is
      unspecified: `projectOrder` and `stepOrder` report the orders taken,
      and `names` the order of the resulting list. */
  method ExpandEnvironment(root: string, host: map<string, string>, projectEnv: map<string, string>, stepEnv: map<string, string>)
    returns (environment: seq<string>, ghost projectOrder: seq<string>, ghost stepOrder: seq<string>, ghost names: seq<string>)
    ensures |environment| == |host.Keys + projectEnv.Keys + stepEnv.Keys|
    ensures forall k :: k in host && k !in projectEnv && k !in stepEnv ==> k + "=" + host[k] in environment
    ensures Enumerates(projectOrder, projectEnv.Keys) && Enumerates(stepOrder, stepEnv.Keys)
    ensures var table := Resolved(root, host, projectEnv, stepEnv, projectOrder, stepOrder);
            && Enumerates(names, table.Keys)
            && |environment| == |names|
            && forall i :: 0 <= i < |names| ==> environment[i] == names[i] + "=" + table[names[i]]
  {
    // The host environment is the starting table.
    var workEnv := host;
    workEnv, projectOrder := ApplyDeclarations(workEnv, projectEnv, root);
    workEnv, stepOrder := ApplyDeclarations(workEnv, stepEnv, root);
    environment, names := Listing(workEnv);
  }

  /** Applies every declaration of `env` to `table`, in Go's map order,
      reported as `order`. */
  method ApplyDeclarations(table: map<string, string>, env: map<string, string>, root: string)
    returns (r: map<string, string>, ghost order: seq<string>)
    ensures r.Keys == table.Keys + env.Keys
    ensures forall k :: k in table && k !in env ==> r[k] == table[k]
    ensures Enumerates(order, env.Keys)
    ensures r == ApplyAll(table, env, order, root)
  {
    r := table;
    order := [];
    var remaining := env.Keys;
    while remaining != {}
      invariant Distinct(order)
      invariant forall k :: k in order <==> k in env && k !in remaining
      invariant remaining <= env.Keys
      invariant r == ApplyAll(table, env, order, root)
      decreases remaining
    {
      var name :| name in remaining;
      r := r[name := Expand(env[name], root, r)];
      order := order + [name];
      remaining := remaining - {name};
    }
  }

  /** The `NAME=VALUE` entries of `table`, in Go's map order, reported as
      `names`. */
  method Listing(table: map<string, string>) returns (environment: seq<string>, ghost names: seq<string>)
    ensures |environment| == |table|
    ensures forall k :: k in table ==> k + "=" + table[k] in environment
    ensures Enumerates(names, table.Keys)
    ensures |environment| == |names|
    ensures forall i :: 0 <= i < |names| ==> environment[i] == names[i] + "=" + table[names[i]]
  {
    environment := [];
    names := [];
    var remaining := table.Keys;
    while remaining != {}
      invariant Distinct(names)
      invariant forall k :: k in names <==> k in table && k !in remaining
      invariant remaining <= table.Keys
      invariant |environment| == |names|
      invariant forall i :: 0 <= i < |names| ==> environment[i] == names[i] + "=" + table[names[i]]
      decreases remaining
    {
      var name :| name in remaining;
      environment := environment + [name + "=" + table[name]];
      names := names + [name];
      remaining := remaining - {name};
    }
    EnumerationLength(names, table.Keys);
    forall k | k in table ensures k + "=" + table[k] in environment {
      var i :| 0 <= i < |names| && names[i] == k;
      assert environment[i] == k + "=" + table[k];
    }
  }
}
