/** Protocol rule trees: lookup by path, role enumeration and validation. */
module Rules {
  import opened Order
  import opened Results
  import opened Paths

  datatype Actor = Anyone | Author | Recipient

  datatype Action = Create | Delete | Prune | Query | Subscribe | Read | Update | CoDelete | CoPrune | CoUpdate

  datatype ActionRule = ActionRule(who: Option<Actor>, role: Option<string>, of: Option<string>, can: set<Action>)

  datatype PathEncryption = PathEncryption(rootKeyId: string, publicKey: string)

  datatype Size = Size(min: Option<nat>, max: Option<nat>)

  /** A rule set; `tagsValid` stands for the validity of its tag schemas. */
  datatype RuleSet = RuleSet(
    role: Option<bool>,
    actions: seq<ActionRule>,
    size: Option<Size>,
    tagsValid: bool,
    encryption: Option<PathEncryption>,
    structure: map<string, RuleSet>)

  /** A definition; `root` holds the top rule sets in its structure. */
  datatype Definition = Definition(protocol: string, types: set<string>, root: RuleSet)

  predicate GoodName(name: string)
  {
    name != "" && '/' !in name
  }

  /** All names in the tree are non-empty and have no slash. */
  predicate WellNamed(node: RuleSet)
  {
    forall name :: name in node.structure ==> GoodName(name) && WellNamed(node.structure[name])
  }

  // ----- lookup ------------------------------------------------------------

  /** The rule set at the end of a list of names. */
  function RuleAt(node: RuleSet, segments: seq<string>): Option<RuleSet>
    decreases |segments|
  {
    if segments == [] then Some(node)
    else if segments[0] !in node.structure then None
    else RuleAt(node.structure[segments[0]], segments[1..])
  }

  /** The position of the first slash, or the end. */
  function FirstSlash(path: string): (i: nat)
    ensures i <= |path| && '/' !in path[..i] && (i < |path| ==> path[i] == '/')
  {
    if path == "" || path[0] == '/' then 0
    else
      var i := FirstSlash(path[1..]);
      assert path[..i + 1] == [path[0]] + path[1..][..i];
      i + 1
  }

  /** Looks a rule set up by its path, which is cut at its first slash. */
  function RuleSetOf(path: string, node: RuleSet): Option<RuleSet>
    decreases |path|
  {
    var i := FirstSlash(path);
    if i == |path| then (if path in node.structure then Some(node.structure[path]) else None)
    else if path[..i] !in node.structure then None
    else RuleSetOf(path[i + 1..], node.structure[path[..i]])
  }

  /** Lookup by path follows the path's segments. */
  lemma {:induction false} LookupFollowsPath(path: string, node: RuleSet)
    ensures RuleSetOf(path, node) == RuleAt(node, Split(path))
    decreases |path|
  {
    var i := FirstSlash(path);
    if i == |path| {
      assert path[..i] == path;
      SplitSingle(path);
      if path in node.structure { assert RuleAt(node.structure[path], [path][1..]) == Some(node.structure[path]); }
    } else {
      assert path == path[..i] + "/" + path[i + 1..];
      SplitPrepend(path[..i], path[i + 1..]);
      assert ([path[..i]] + Split(path[i + 1..]))[1..] == Split(path[i + 1..]);
      if path[..i] in node.structure { LookupFollowsPath(path[i + 1..], node.structure[path[..i]]); }
    }
  }

  // ----- roles -------------------------------------------------------------

  /** Every rule set on the way along the segments is there and is no role. */
  ghost predicate Open(node: RuleSet, segments: seq<string>)
    decreases |segments|
  {
    segments != [] ==>
      && segments[0] in node.structure
      && node.structure[segments[0]].role.None?
      && Open(node.structure[segments[0]], segments[1..])
  }

  /** The segments lead to a role, and to none before it. */
  ghost predicate IsRole(node: RuleSet, segments: seq<string>)
    decreases |segments|
  {
    && segments != [] && segments[0] in node.structure
    && var child := node.structure[segments[0]];
       if child.role.Some? then |segments| == 1 else IsRole(child, segments[1..])
  }

  /** A role found along segments is the rule set looked up there, and none of
      the rule sets above it is a role. */
  lemma {:induction false} IsRoleIff(node: RuleSet, segments: seq<string>)
    ensures IsRole(node, segments) <==>
            && segments != [] && RuleAt(node, segments).Some? && RuleAt(node, segments).value.role.Some?
            && forall i :: 0 < i < |segments| ==>
                 RuleAt(node, segments[..i]).Some? && RuleAt(node, segments[..i]).value.role.None?
    decreases |segments|
  {
    if segments != [] && segments[0] in node.structure {
      var child, rest := node.structure[segments[0]], segments[1..];
      IsRoleIff(child, rest);
      assert forall i :: 0 < i < |segments| ==> segments[..i][0] == segments[0] && segments[..i][1..] == rest[..i - 1];
      assert forall i :: 0 < i < |segments| ==> RuleAt(node, segments[..i]) == RuleAt(child, rest[..i - 1]);
      assert forall i :: 0 < i < |rest| ==> RuleAt(node, segments[..i + 1]) == RuleAt(child, rest[..i]);
      if |segments| > 1 { assert RuleAt(node, segments[..1]) == RuleAt(child, rest[..0]) == Some(child); }
    }
  }

  const MAX_DEPTH: nat := 10

  /** The text of a path as it is put together from names, which may be anything. */
  function PathText(names: seq<string>): string
    decreases |names|
  {
    if names == [] then ""
    else
      var n := |names| - 1;
      var above := PathText(names[..n]);
      if above == "" then names[n] else above + "/" + names[n]
  }

  /** A path of rule sets that are no roles has a text of too many segments. */
  ghost predicate TooDeep(node: RuleSet, above: seq<string>)
  {
    exists segments :: Open(node, segments) && |Split(PathText(above + segments))| > MAX_DEPTH
  }

  /** The path names a role below a node. */
  ghost predicate NamesRole(node: RuleSet, above: seq<string>, path: string)
  {
    exists segments :: IsRole(node, segments) && path == PathText(above + segments)
  }

  // The same, for roles below the first `n` of the names.
  ghost predicate NamesRoleBelow(node: RuleSet, above: seq<string>, names: seq<string>, path: string)
    requires forall i :: 0 <= i < |names| ==> names[i] in node.structure
  {
    exists i :: 0 <= i < |names| && NamesRoleUnder(node, above, names[i], path)
  }

  ghost predicate NamesRoleUnder(node: RuleSet, above: seq<string>, name: string, path: string)
    requires name in node.structure
  {
    var child := node.structure[name];
    if child.role.Some? then path == PathText(above + [name]) else NamesRole(child, above + [name], path)
  }

  lemma UnderNames(node: RuleSet, above: seq<string>, name: string, path: string)
    requires name in node.structure && NamesRoleUnder(node, above, name, path)
    ensures NamesRole(node, above, path)
  {
    var child := node.structure[name];
    if child.role.Some? {
      assert IsRole(node, [name]);
    } else {
      var rest :| IsRole(child, rest) && path == PathText(above + [name] + rest);
      assert above + [name] + rest == above + ([name] + rest) && ([name] + rest)[1..] == rest;
      assert IsRole(node, [name] + rest);
    }
  }

  lemma RoleIsUnder(node: RuleSet, above: seq<string>, path: string) returns (name: string)
    requires NamesRole(node, above, path)
    ensures name in node.structure && NamesRoleUnder(node, above, name, path)
  {
    var segments :| IsRole(node, segments) && path == PathText(above + segments);
    name := segments[0];
    var child, rest := node.structure[name], segments[1..];
    assert segments == [name] + rest;
    if child.role.Some? {
      assert segments == [name];
    } else {
      assert above + segments == above + [name] + rest;
      assert IsRole(child, rest);
    }
  }

  lemma DeepChild(node: RuleSet, name: string, above: seq<string>)
    requires name in node.structure && node.structure[name].role.None? && TooDeep(node.structure[name], above + [name])
    ensures TooDeep(node, above)
  {
    var rest :| Open(node.structure[name], rest) && |Split(PathText(above + [name] + rest))| > MAX_DEPTH;
    assert ([name] + rest)[1..] == rest && above + [name] + rest == above + ([name] + rest);
    assert Open(node, [name] + rest);
  }

  lemma DeepIsBelow(node: RuleSet, above: seq<string>) returns (name: string)
    requires TooDeep(node, above) && |Split(PathText(above))| <= MAX_DEPTH
    ensures name in node.structure && node.structure[name].role.None? && TooDeep(node.structure[name], above + [name])
  {
    var segments :| Open(node, segments) && |Split(PathText(above + segments))| > MAX_DEPTH;
    assert segments == [] ==> above + segments == above;
    name := segments[0];
    assert Open(node.structure[name], segments[1..]);
    assert above + segments == above + [name] + segments[1..];
  }

  lemma PathTextAppend(above: seq<string>, name: string)
    ensures PathText(above + [name]) == if PathText(above) == "" then name else PathText(above) + "/" + name
  {
    assert (above + [name])[..|above|] == above;
  }

  /** The text of a path of good names has those names as its segments. */
  lemma {:induction false} PathTextSegments(names: seq<string>)
    requires names != [] && forall i :: 0 <= i < |names| ==> GoodName(names[i])
    ensures PathText(names) != "" && Split(PathText(names)) == names
    decreases |names|
  {
    var n := |names| - 1;
    assert names == names[..n] + [names[n]];
    if n == 0 {
      assert PathText(names[..0]) == "";
      SplitSingle(names[0]);
    } else {
      PathTextSegments(names[..n]);
      SplitAppend(PathText(names[..n]), names[n]);
    }
  }

  /** For good names, a tree is too deep exactly when a path of rule sets that are
      no roles has more than ten of them. */
  lemma TooDeepIff(node: RuleSet)
    requires WellNamed(node)
    ensures TooDeep(node, []) <==> exists segments :: Open(node, segments) && |segments| > MAX_DEPTH
  {
    forall segments | Open(node, segments) && segments != [] ensures Split(PathText([] + segments)) == segments {
      OpenNamed(node, segments);
      assert [] + segments == segments;
      PathTextSegments(segments);
    }
  }

  lemma {:induction false} OpenNamed(node: RuleSet, segments: seq<string>)
    requires WellNamed(node) && Open(node, segments)
    ensures forall i :: 0 <= i < |segments| ==> GoodName(segments[i])
    decreases |segments|
  {
    if segments != [] { OpenNamed(node.structure[segments[0]], segments[1..]); }
  }

  /** The names in a structure, in the order they are walked. */
  method Names(node: RuleSet) returns (names: seq<string>)
    ensures Elements(names) == node.structure.Keys
    ensures forall i :: 0 <= i < |names| ==> names[i] in node.structure
  {
    names := SortedKeys(node.structure.Keys);
    forall i | 0 <= i < |names| ensures names[i] in node.structure { assert names[i] in Elements(names); }
  }

  /** Lists the roles below a node, added to those found so far. It fails exactly
      when a path of rule sets that are no roles has more than ten segments, and
      otherwise lists exactly the paths to roles with no role above them. */
  method RolePaths(path: string, node: RuleSet, found: seq<string>, ghost above: seq<string>)
    returns (r: Result<seq<string>>)
    requires path == PathText(above)
    ensures r.Err? <==> TooDeep(node, above)
    ensures r.Ok? ==> forall p :: p in r.value <==> p in found || NamesRole(node, above, p)
    decreases node, 1
  {
    DeepHere(node, above);
    if |Split(path)| > MAX_DEPTH {
      return Err(Unexpected);
    }
    var names := Names(node);
    var roles, k := found, 0;
    while k < |names|
      invariant 0 <= k <= |names|
      invariant RolesListed(roles, found, node, above, names[..k])
      invariant forall i :: 0 <= i < k ==> Shallow(node, names[i], above)
    {
      var below := RolesUnder(path, node, names[k], roles, above);
      if below.Err? {
        DeepChild(node, names[k], above);
        return below;
      }
      RolesListedNext(roles, below.value, found, node, above, names, k);
      roles := below.value;
      k := k + 1;
    }
    AllBelow(node, above, names);
    AllShallow(node, names, above);
    return Ok(roles);
  }

  lemma DeepHere(node: RuleSet, above: seq<string>)
    ensures |Split(PathText(above))| > MAX_DEPTH ==> TooDeep(node, above)
  {
    assert Open(node, []) && above + [] == above;
  }

  /** Adds a rule set that is a role, or else the roles below it. */
  method RolesUnder(path: string, node: RuleSet, name: string, found: seq<string>, ghost above: seq<string>)
    returns (r: Result<seq<string>>)
    requires name in node.structure && path == PathText(above)
    ensures r.Err? <==> !Shallow(node, name, above)
    ensures r.Ok? ==> forall p :: p in r.value <==> p in found || NamesRoleUnder(node, above, name, p)
    decreases node, 0
  {
    PathTextAppend(above, name);
    var at := if path == "" then name else path + "/" + name;
    if node.structure[name].role.Some? {
      return Ok(found + [at]);
    }
    r := RolePaths(at, node.structure[name], found, above + [name]);
  }

  ghost predicate Shallow(node: RuleSet, name: string, above: seq<string>)
    requires name in node.structure
  {
    node.structure[name].role.Some? || !TooDeep(node.structure[name], above + [name])
  }

  lemma AllShallow(node: RuleSet, names: seq<string>, above: seq<string>)
    requires Elements(names) == node.structure.Keys && |Split(PathText(above))| <= MAX_DEPTH
    requires forall i :: 0 <= i < |names| ==> names[i] in node.structure && Shallow(node, names[i], above)
    ensures !TooDeep(node, above)
  {
    forall name | name in node.structure ensures Shallow(node, name, above) { assert name in Elements(names); }
    if TooDeep(node, above) {
      var deep := DeepIsBelow(node, above);
    }
  }

  /** The roles below the given names have been added to those found before. */
  ghost predicate RolesListed(roles: seq<string>, found: seq<string>, node: RuleSet, above: seq<string>,
                              names: seq<string>)
    requires forall i :: 0 <= i < |names| ==> names[i] in node.structure
  {
    forall p :: p in roles <==> p in found || NamesRoleBelow(node, above, names, p)
  }

  lemma RolesListedNext(before: seq<string>, roles: seq<string>, found: seq<string>, node: RuleSet, above: seq<string>,
                        names: seq<string>, k: nat)
    requires k < |names| && forall i :: 0 <= i < |names| ==> names[i] in node.structure
    requires RolesListed(before, found, node, above, names[..k])
    requires forall p :: p in roles <==> p in before || NamesRoleUnder(node, above, names[k], p)
    ensures RolesListed(roles, found, node, above, names[..k + 1])
  {
    forall p ensures NamesRoleBelow(node, above, names[..k + 1], p) <==>
                     NamesRoleBelow(node, above, names[..k], p) || NamesRoleUnder(node, above, names[k], p)
    {
      assert names[..k + 1][k] == names[k] && forall i :: 0 <= i < k ==> names[..k + 1][i] == names[..k][i];
    }
  }

  lemma AllBelow(node: RuleSet, above: seq<string>, names: seq<string>)
    requires Elements(names) == node.structure.Keys && forall i :: 0 <= i < |names| ==> names[i] in node.structure
    ensures forall p :: NamesRoleBelow(node, above, names[..|names|], p) <==> NamesRole(node, above, p)
  {
    assert names[..|names|] == names;
    forall p ensures NamesRoleBelow(node, above, names, p) <==> NamesRole(node, above, p) {
      if NamesRoleBelow(node, above, names, p) {
        var i :| 0 <= i < |names| && NamesRoleUnder(node, above, names[i], p);
        UnderNames(node, above, names[i], p);
      }
      if NamesRole(node, above, p) {
        var name := RoleIsUnder(node, above, p);
        assert name in Elements(names);
      }
    }
  }

  // ----- validation --------------------------------------------------------

  const READ_ACTIONS: set<Action> := {Read, Query, Subscribe}
  const CO_ACTIONS: set<Action> := {CoUpdate, CoDelete, CoPrune}

  predicate ValidAction(rule: ActionRule, isRole: string -> bool)
  {
    && (rule.role.Some? ==>
          isRole(rule.role.value) && (READ_ACTIONS * rule.can == {} || READ_ACTIONS <= rule.can))
    && (rule.who == Some(Anyone) ==> rule.of.None?)
    && (rule.who == Some(Recipient) && rule.of.None? ==> CO_ACTIONS * rule.can != {})
    && (rule.who == Some(Author) ==> rule.of.Some?)
    && (Update in rule.can || Delete in rule.can ==> Create in rule.can)
  }

  /** Two rules of one rule set are for the same actor or role. */
  predicate SameActor(a: ActionRule, b: ActionRule)
  {
    if a.who.Some? then a.who == b.who && a.of == b.of else a.role == b.role
  }

  predicate ValidSize(size: Size)
  {
    size.min.Some? && size.max.Some? ==> size.min.value <= size.max.value
  }

  /** A rule set and those below it are valid. The names of the top rule sets are
      not compared with the types. */
  predicate ValidRuleSet(node: RuleSet, types: set<string>, isRole: string -> bool)
  {
    && (node.size.Some? ==> ValidSize(node.size.value))
    && node.tagsValid
    && (forall i :: 0 <= i < |node.actions| ==> ValidAction(node.actions[i], isRole))
    && (forall i, j :: 0 <= i < j < |node.actions| ==> !SameActor(node.actions[i], node.actions[j]))
    && (forall name :: name in node.structure ==> name in types && ValidRuleSet(node.structure[name], types, isRole))
  }

  predicate ValidTop(d: Definition, isRole: string -> bool)
  {
    forall name :: name in d.root.structure ==> ValidRuleSet(d.root.structure[name], d.types, isRole)
  }

  /** Validity depends only on which paths are roles. */
  lemma {:induction false} ValidSame(node: RuleSet, types: set<string>, f: string -> bool, g: string -> bool)
    requires forall p :: f(p) == g(p)
    ensures ValidRuleSet(node, types, f) <==> ValidRuleSet(node, types, g)
  {
    assert forall i :: 0 <= i < |node.actions| ==>
      (ValidAction(node.actions[i], f) <==> ValidAction(node.actions[i], g));
    forall name | name in node.structure
      ensures ValidRuleSet(node.structure[name], types, f) <==> ValidRuleSet(node.structure[name], types, g)
    {
      ValidSame(node.structure[name], types, f, g);
    }
  }

  /** The roles there are in a definition's tree. */
  ghost function RolesIn(d: Definition): string -> bool
  {
    path => NamesRole(d.root, [], path)
  }

  // ----- what validation accepts -------------------------------------------

  /** What is asked of an action rule: an author's rule says of what, and a rule
      for anyone does not; a rule for a role names a role of the tree, and lets it
      read, query and subscribe or none of the three; a recipient's own rule has an
      action on the writes of others; and who may update or delete may create. */
  ghost predicate MeetsRule(d: Definition, rule: ActionRule)
  {
    && (rule.who == Some(Author) ==> rule.of.Some?)
    && (rule.who == Some(Anyone) ==> rule.of == None)
    && (rule.role.Some? ==> NamesRole(d.root, [], rule.role.value))
    && (rule.role.Some? ==> (Read in rule.can <==> Query in rule.can) && (Query in rule.can <==> Subscribe in rule.can))
    && (rule.who == Some(Recipient) && rule.of == None ==>
          CoUpdate in rule.can || CoDelete in rule.can || CoPrune in rule.can)
    && (Update in rule.can ==> Create in rule.can)
    && (Delete in rule.can ==> Create in rule.can)
  }

  /** What is asked of one rule set: its own rules, no actor and no role twice, a
      size range that is not empty, and names of types below it. */
  ghost predicate MeetsRules(d: Definition, node: RuleSet)
  {
    && (forall i :: 0 <= i < |node.actions| ==> MeetsRule(d, node.actions[i]))
    && (forall i, j :: 0 <= i < j < |node.actions| && node.actions[i].who.Some? ==>
          node.actions[i].who != node.actions[j].who || node.actions[i].of != node.actions[j].of)
    && (forall i, j :: 0 <= i < j < |node.actions| && node.actions[i].who.None? ==>
          node.actions[i].role != node.actions[j].role)
    && (forall min, max :: node.size == Some(Size(Some(min), Some(max))) ==> min <= max)
    && node.tagsValid
    && node.structure.Keys <= d.types
  }

  lemma MeetsRuleIff(d: Definition, rule: ActionRule)
    ensures ValidAction(rule, RolesIn(d)) <==> MeetsRule(d, rule)
  {
    var read, co := READ_ACTIONS * rule.can, CO_ACTIONS * rule.can;
    assert read == {} <==> Read !in rule.can && Query !in rule.can && Subscribe !in rule.can by {
      assert Read in read <==> Read in rule.can;
      assert Query in read <==> Query in rule.can;
      assert Subscribe in read <==> Subscribe in rule.can;
    }
    assert co == {} <==> CoUpdate !in rule.can && CoDelete !in rule.can && CoPrune !in rule.can by {
      assert CoUpdate in co <==> CoUpdate in rule.can;
      assert CoDelete in co <==> CoDelete in rule.can;
      assert CoPrune in co <==> CoPrune in rule.can;
    }
  }

  lemma SizeIff(size: Option<Size>)
    ensures (size.Some? ==> ValidSize(size.value)) <==>
            forall min, max :: size == Some(Size(Some(min), Some(max))) ==> min <= max
  {
    if size.Some? && size.value.min.Some? && size.value.max.Some? {
      assert size == Some(Size(Some(size.value.min.value), Some(size.value.max.value)));
    }
  }

  /** A rule set is valid exactly when it meets the rules and those below are valid. */
  lemma MeetsRulesIff(d: Definition, node: RuleSet)
    ensures ValidRuleSet(node, d.types, RolesIn(d)) <==>
            && MeetsRules(d, node)
            && forall name :: name in node.structure ==> ValidRuleSet(node.structure[name], d.types, RolesIn(d))
  {
    forall i | 0 <= i < |node.actions|
      ensures ValidAction(node.actions[i], RolesIn(d)) <==> MeetsRule(d, node.actions[i])
    {
      MeetsRuleIff(d, node.actions[i]);
    }
    SizeIff(node.size);
  }

  /** Below a valid rule set all rule sets are valid. */
  lemma {:induction false} ValidBelow(node: RuleSet, types: set<string>, isRole: string -> bool, segments: seq<string>)
    requires ValidRuleSet(node, types, isRole) && RuleAt(node, segments).Some?
    ensures ValidRuleSet(RuleAt(node, segments).value, types, isRole)
    decreases |segments|
  {
    if segments != [] { ValidBelow(node.structure[segments[0]], types, isRole, segments[1..]); }
  }

  /** If every rule set at and below a node meets the rules, the node is valid. */
  lemma {:induction false} AllMeetRules(d: Definition, node: RuleSet)
    requires forall rest :: RuleAt(node, rest).Some? ==> MeetsRules(d, RuleAt(node, rest).value)
    ensures ValidRuleSet(node, d.types, RolesIn(d))
  {
    assert RuleAt(node, []) == Some(node);
    forall name | name in node.structure ensures ValidRuleSet(node.structure[name], d.types, RolesIn(d)) {
      forall rest | RuleAt(node.structure[name], rest).Some?
        ensures MeetsRules(d, RuleAt(node.structure[name], rest).value)
      {
        assert ([name] + rest)[1..] == rest;
        assert RuleAt(node, [name] + rest) == RuleAt(node.structure[name], rest);
      }
      AllMeetRules(d, node.structure[name]);
    }
    MeetsRulesIff(d, node);
  }

  /** The rule set at every path of the tree meets the rules. */
  ghost predicate IsValid(d: Definition)
  {
    forall segments :: segments != [] && RuleAt(d.root, segments).Some? ==>
                       MeetsRules(d, RuleAt(d.root, segments).value)
  }

  lemma ValidTopMeets(d: Definition)
    requires ValidTop(d, RolesIn(d))
    ensures IsValid(d)
  {
    forall segments | segments != [] && RuleAt(d.root, segments).Some?
      ensures MeetsRules(d, RuleAt(d.root, segments).value)
    {
      ValidBelow(d.root.structure[segments[0]], d.types, RolesIn(d), segments[1..]);
      MeetsRulesIff(d, RuleAt(d.root, segments).value);
    }
  }

  /** The checks down the tree succeed exactly when the rule set at every path
      meets the rules. */
  lemma ValidTopIff(d: Definition)
    ensures ValidTop(d, RolesIn(d)) <==> IsValid(d)
  {
    if ValidTop(d, RolesIn(d)) { ValidTopMeets(d); }
    if IsValid(d) {
      forall name | name in d.root.structure ensures ValidRuleSet(d.root.structure[name], d.types, RolesIn(d)) {
        forall rest | RuleAt(d.root.structure[name], rest).Some?
          ensures MeetsRules(d, RuleAt(d.root.structure[name], rest).value)
        {
          assert ([name] + rest)[1..] == rest;
          assert RuleAt(d.root, [name] + rest) == RuleAt(d.root.structure[name], rest);
        }
        AllMeetRules(d, d.root.structure[name]);
      }
    }
  }

  /** Accepts a definition exactly when no path of rule sets that are no roles is
      too long and the rule set at every path meets the rules. */
  method ValidateStructure(d: Definition) returns (r: Result<()>)
    ensures r.Ok? <==> !TooDeep(d.root, []) && IsValid(d)
  {
    var listed := RolePaths("", d.root, [], []);
    if listed.Err? {
      return Err(Unexpected);
    }
    var roles := listed.value;
    forall name | name in d.root.structure
      ensures ValidRuleSet(d.root.structure[name], d.types, path => path in roles) <==>
              ValidRuleSet(d.root.structure[name], d.types, RolesIn(d))
    {
      ValidSame(d.root.structure[name], d.types, path => path in roles, RolesIn(d));
    }
    ValidTopIff(d);
    return if ValidTop(d, path => path in roles) then Ok(()) else Err(Unexpected);
  }

  /** The path of a role that is listed leads to that role's rule set. */
  lemma RoleResolves(node: RuleSet, segments: seq<string>)
    requires WellNamed(node) && IsRole(node, segments)
    ensures RuleSetOf(PathText(segments), node) == RuleAt(node, segments)
    ensures RuleAt(node, segments).Some? && RuleAt(node, segments).value.role.Some?
  {
    IsRoleIff(node, segments);
    SegmentsNamed(node, segments);
    PathTextSegments(segments);
    LookupFollowsPath(PathText(segments), node);
  }

  lemma {:induction false} SegmentsNamed(node: RuleSet, segments: seq<string>)
    requires WellNamed(node) && RuleAt(node, segments).Some?
    ensures forall i :: 0 <= i < |segments| ==> GoodName(segments[i])
    decreases |segments|
  {
    if segments != [] { SegmentsNamed(node.structure[segments[0]], segments[1..]); }
  }

  /** In a valid definition every role that any rule set names, at any path, is
      looked up to a rule set that is a role. */
  lemma AcceptedRolesResolve(d: Definition, segments: seq<string>, i: nat)
    requires WellNamed(d.root) && IsValid(d)
    requires segments != [] && RuleAt(d.root, segments).Some?
    requires i < |RuleAt(d.root, segments).value.actions| && RuleAt(d.root, segments).value.actions[i].role.Some?
    ensures var found := RuleSetOf(RuleAt(d.root, segments).value.actions[i].role.value, d.root);
            found.Some? && found.value.role.Some?
  {
    assert MeetsRule(d, RuleAt(d.root, segments).value.actions[i]);
    var role := RuleAt(d.root, segments).value.actions[i].role.value;
    var names :| IsRole(d.root, names) && role == PathText([] + names);
    assert [] + names == names;
    RoleResolves(d.root, names);
  }

  /** A role can be invoked if the rule set looked up by its path is a role that is
      switched on. */
  predicate CanInvoke(role: string, root: RuleSet)
  {
    var found := RuleSetOf(role, root);
    found.Some? && found.value.role == Some(true)
  }

  /** In a valid definition a role that a rule set names can be invoked exactly when
      it is not switched off at its path: enumeration takes `$role: false` for a
      role, and invocation does not. */
  lemma NamedRoleInvocableIff(d: Definition, segments: seq<string>, i: nat)
    requires WellNamed(d.root) && IsValid(d)
    requires segments != [] && RuleAt(d.root, segments).Some?
    requires i < |RuleAt(d.root, segments).value.actions| && RuleAt(d.root, segments).value.actions[i].role.Some?
    ensures var role := RuleAt(d.root, segments).value.actions[i].role.value;
            && RuleAt(d.root, Split(role)).Some?
            && (CanInvoke(role, d.root) <==> RuleAt(d.root, Split(role)).value.role != Some(false))
  {
    AcceptedRolesResolve(d, segments, i);
    var role := RuleAt(d.root, segments).value.actions[i].role.value;
    LookupFollowsPath(role, d.root);
    var found := RuleSetOf(role, d.root).value;
    assert found.role == if found.role.value then Some(true) else Some(false);
  }
}
