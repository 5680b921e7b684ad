/** Hierarchical deterministic keys, and the labelling of a protocol's rule tree
    with the public keys derived for its paths. */
module HdKey {
  import opened Order
  import opened Results
  import opened Messages
  import opened Paths
  import opened Rules

  const KEY_LENGTH: nat := 32

  /** Cryptography that is outside the model: one expansion step (sections 2.2 and
      2.3 of RFC 5869), the public key of a secret, and base64 text. */
  datatype Crypto = Crypto(
    expand: (Bytes, string) -> Bytes,
    publicKey: Bytes -> string,
    encode: Bytes -> string,
    decode: string -> Option<Bytes>)

  ghost predicate Reversible(crypto: Crypto, b: Bytes)
  {
    crypto.decode(crypto.encode(b)) == Some(b)
  }

  ghost predicate FullLength(crypto: Crypto, key: Bytes, info: string)
  {
    |crypto.expand(key, info)| == KEY_LENGTH
  }

  ghost predicate SoundCrypto(crypto: Crypto)
  {
    (forall b :: Reversible(crypto, b)) && (forall key, info :: FullLength(crypto, key, info))
  }

  datatype Scheme = DataFormats | Schemas | ProtocolContext | ProtocolPaths
  {
    function Text(): string
    {
      match this
      case DataFormats => "dataFormats"
      case Schemas => "schemas"
      case ProtocolContext => "protocolContext"
      case ProtocolPaths => "protocolPath"
    }
  }

  datatype PrivateKey = PrivateKey(publicKey: string, d: string)

  datatype DerivedKey = DerivedKey(rootKeyId: string, scheme: Scheme, path: Option<seq<string>>, key: PrivateKey)
  {
    function PathOrEmpty(): seq<string>
    {
      if path.Some? then path.value else []
    }
  }

  datatype DerivationPath = Full(segments: seq<string>) | Relative(segments: seq<string>)

  // ----- derivation --------------------------------------------------------

  /** One expansion for each segment of a path; an empty segment is an error. */
  function Derive(crypto: Crypto, key: Bytes, path: seq<string>): Result<Bytes>
    decreases |path|
  {
    if path == [] then Ok(key)
    else
      var n := |path| - 1;
      var rest := Derive(crypto, key, path[..n]);
      if rest.Err? then rest
      else if path[n] == "" then Err(Unexpected)
      else Ok(crypto.expand(rest.value, path[n]))
  }

  method DeriveKey(crypto: Crypto, key: Bytes, path: seq<string>) returns (r: Result<Bytes>)
    ensures r == Derive(crypto, key, path)
  {
    var derived, i := key, 0;
    while i < |path|
      invariant 0 <= i <= |path| && Derive(crypto, key, path[..i]) == Ok(derived)
    {
      assert path[..i + 1][..i] == path[..i];
      if path[i] == "" {
        DeriveFails(crypto, key, path, i + 1);
        return Err(Unexpected);
      }
      derived := crypto.expand(derived, path[i]);
      i := i + 1;
    }
    assert path[..i] == path;
    return Ok(derived);
  }

  lemma {:induction false} DeriveFails(crypto: Crypto, key: Bytes, path: seq<string>, k: nat)
    requires k <= |path| && Derive(crypto, key, path[..k]).Err?
    ensures Derive(crypto, key, path) == Derive(crypto, key, path[..k])
    decreases |path|
  {
    if k == |path| {
      assert path[..k] == path;
    } else {
      assert path[..|path| - 1][..k] == path[..k];
      DeriveFails(crypto, key, path[..|path| - 1], k);
    }
  }

  /** Deriving along a path in two stages is deriving along it at once. */
  lemma {:induction false} DeriveSplits(crypto: Crypto, key: Bytes, a: seq<string>, b: seq<string>)
    ensures var first := Derive(crypto, key, a);
            Derive(crypto, key, a + b) == if first.Err? then first else Derive(crypto, first.value, b)
    decreases |b|
  {
    if b == [] {
      assert a + b == a;
    } else {
      var n := |b| - 1;
      assert (a + b)[..|a + b| - 1] == a + b[..n];
      DeriveSplits(crypto, key, a, b[..n]);
    }
  }

  /** Derivation succeeds exactly when no segment is empty. */
  lemma {:induction false} DerivesIff(crypto: Crypto, key: Bytes, path: seq<string>)
    requires SoundCrypto(crypto)
    ensures Derive(crypto, key, path).Ok? <==> "" !in path
    ensures Derive(crypto, key, path).Ok? && |key| == KEY_LENGTH ==> |Derive(crypto, key, path).value| == KEY_LENGTH
    decreases |path|
  {
    if path != [] {
      var n := |path| - 1;
      DerivesIff(crypto, key, path[..n]);
      assert path == path[..n] + [path[n]];
      var rest := Derive(crypto, key, path[..n]);
      if rest.Ok? { assert FullLength(crypto, rest.value, path[n]); }
    }
  }

  predicate IsPrefix(a: seq<string>, b: seq<string>)
  {
    |a| <= |b| && a == b[..|a|]
  }

  /** The part of a path below an ancestor; a full path must go through it. */
  function SubPath(ancestor: seq<string>, path: DerivationPath): Result<seq<string>>
  {
    match path
    case Full(full) => if IsPrefix(ancestor, full) then Ok(full[|ancestor|..]) else Err(Unexpected)
    case Relative(sub) => Ok(sub)
  }

  /** The secret of a key, if its text decodes to the right length. */
  function Secret(crypto: Crypto, key: PrivateKey): Option<Bytes>
  {
    var secret := crypto.decode(key.d);
    if secret.Some? && |secret.value| == KEY_LENGTH then secret else None
  }

  function KeyOf(crypto: Crypto, secret: Bytes): PrivateKey
  {
    PrivateKey(crypto.publicKey(secret), crypto.encode(secret))
  }

  /** A descendant of a key. */
  function Descend(crypto: Crypto, ancestor: DerivedKey, path: DerivationPath): Result<DerivedKey>
  {
    var sub, secret := SubPath(ancestor.PathOrEmpty(), path), Secret(crypto, ancestor.key);
    if sub.Err? then Err(sub.error)
    else if secret.None? then Err(Unexpected)
    else
      var derived := Derive(crypto, secret.value, sub.value);
      if derived.Err? then Err(derived.error)
      else Ok(DerivedKey(ancestor.rootKeyId, ancestor.scheme, Some(ancestor.PathOrEmpty() + sub.value),
                         KeyOf(crypto, derived.value)))
  }

  /** Derives a descendant key. A full path that is a proper part of the
      ancestor's path is a caller's error, as the comparison would overrun it. */
  method DeriveJwk(crypto: Crypto, ancestor: DerivedKey, path: DerivationPath) returns (r: Result<DerivedKey>)
    requires path.Full? && IsPrefix(path.segments, ancestor.PathOrEmpty()) ==> path.segments == ancestor.PathOrEmpty()
    ensures r == Descend(crypto, ancestor, path)
  {
    var from := ancestor.PathOrEmpty();
    var sub := path.segments;
    if path.Full? {
      var i := 0;
      while i < |from|
        invariant 0 <= i <= |from| && i <= |path.segments| && from[..i] == path.segments[..i]
      {
        assert path.segments[..|path.segments|] == path.segments;
        assert i < |path.segments|;
        if from[i] != path.segments[i] {
          return Err(Unexpected);
        }
        i := i + 1;
      }
      assert from[..i] == from;
      sub := path.segments[|from|..];
    }
    var secret := crypto.decode(ancestor.key.d);
    if secret.None? || |secret.value| != KEY_LENGTH {
      return Err(Unexpected);
    }
    var derived := DeriveKey(crypto, secret.value, sub);
    if derived.Err? {
      return Err(derived.error);
    }
    return Ok(DerivedKey(ancestor.rootKeyId, ancestor.scheme, Some(from + sub), KeyOf(crypto, derived.value)));
  }

  /** A key has a descendant exactly when it can be decoded, a full path goes through
      its own, and no segment below it is empty. The descendant has the root and the
      scheme of its ancestor, the whole path, and the public key of its secret, which
      is derived from the ancestor's along the rest of the path. */
  lemma DescendsIff(crypto: Crypto, ancestor: DerivedKey, path: DerivationPath)
    requires SoundCrypto(crypto)
    ensures var from := if ancestor.path.Some? then ancestor.path.value else [];
            var whole := if path.Full? then path.segments else from + path.segments;
            var secret, r := crypto.decode(ancestor.key.d), Descend(crypto, ancestor, path);
            && (r.Ok? <==>
                  && secret.Some? && |secret.value| == 32
                  && |from| <= |whole| && whole[..|from|] == from && "" !in whole[|from|..])
            && (r.Ok? ==>
                  && r.value.rootKeyId == ancestor.rootKeyId && r.value.scheme == ancestor.scheme
                  && r.value.path == Some(whole)
                  && var derived := Derive(crypto, secret.value, whole[|from|..]);
                     && derived.Ok? && crypto.decode(r.value.key.d) == Some(derived.value)
                     && r.value.key.publicKey == crypto.publicKey(derived.value))
  {
    var from := ancestor.PathOrEmpty();
    var whole := if path.Full? then path.segments else from + path.segments;
    var secret := Secret(crypto, ancestor.key);
    if IsPrefix(from, whole) {
      assert from + whole[|from|..] == whole;
      assert path.Relative? ==> whole[|from|..] == path.segments;
      if secret.Some? {
        DerivesIff(crypto, secret.value, whole[|from|..]);
        var derived := Derive(crypto, secret.value, whole[|from|..]);
        if derived.Ok? { assert Reversible(crypto, derived.value); }
      }
    }
  }

  /** A derived key and its ancestor give the same keys along full paths: from any
      key on the way, a full path leads to the key it leads to from the root. */
  lemma FullPathFromAnyAncestor(crypto: Crypto, root: DerivedKey, via: seq<string>, full: seq<string>)
    requires SoundCrypto(crypto) && IsPrefix(root.PathOrEmpty(), via) && IsPrefix(via, full)
    requires Descend(crypto, root, Full(full)).Ok?
    ensures Descend(crypto, root, Full(via)).Ok?
    ensures Descend(crypto, Descend(crypto, root, Full(via)).value, Full(full)) == Descend(crypto, root, Full(full))
  {
    var from := root.PathOrEmpty();
    var secret := Secret(crypto, root.key).value;
    var a, b := via[|from|..], full[|via|..];
    PathParts(from, via, full);
    DeriveSplits(crypto, secret, a, b);
    DerivesIff(crypto, secret, a);
    var mid := Derive(crypto, secret, a).value;
    assert Reversible(crypto, mid);
  }

  lemma PathParts(from: seq<string>, via: seq<string>, full: seq<string>)
    requires IsPrefix(from, via) && IsPrefix(via, full)
    ensures var a, b := via[|from|..], full[|via|..];
            full[|from|..] == a + b && from + a == via && via + b == full && from + (a + b) == full
  {
  }

  // ----- derivation paths of records --------------------------------------

  /** The path from the root key to the key a record is encrypted with. */
  function PathFor(scheme: Scheme, w: Write): Result<seq<string>>
  {
    var d := w.descriptor;
    match scheme
    case DataFormats =>
      if d.schema.Some? then Ok([scheme.Text(), d.schema.value, d.dataFormat]) else Ok([scheme.Text(), d.dataFormat])
    case ProtocolPaths =>
      if d.protocol.None? || d.protocolPath.None? then Err(Unexpected)
      else Ok([scheme.Text(), d.protocol.value] + Split(d.protocolPath.value))
    case ProtocolContext =>
      if w.contextId.None? then Err(Unexpected) else Ok([scheme.Text(), Split(w.contextId.value)[0]])
    case Schemas =>
      if d.schema.None? then Err(Unexpected) else Ok([scheme.Text(), d.schema.value])
  }

  /** The path of a record in each scheme, and the fields without which there is none. */
  lemma PathForIs(w: Write)
    ensures var d := w.descriptor;
            && (forall schema :: d.schema == Some(schema) ==>
                  && PathFor(DataFormats, w) == Ok(["dataFormats", schema, d.dataFormat])
                  && PathFor(Schemas, w) == Ok(["schemas", schema]))
            && (d.schema.None? ==> PathFor(DataFormats, w) == Ok(["dataFormats", d.dataFormat]))
            && (PathFor(Schemas, w).Err? <==> d.schema == None)
            && (forall protocol, path :: d.protocol == Some(protocol) && d.protocolPath == Some(path) ==>
                  PathFor(ProtocolPaths, w) == Ok(["protocolPath", protocol] + Split(path)))
            && (PathFor(ProtocolPaths, w).Err? <==> d.protocol == None || d.protocolPath == None)
            && (PathFor(ProtocolContext, w).Err? <==> w.contextId == None)
  {
  }

  /** All records of a context, and no others, have the path of its root. */
  lemma ContextPathIff(w: Write, root: string)
    requires '/' !in root
    ensures PathFor(ProtocolContext, w) == Ok(["protocolContext", root]) <==>
            exists rest :: w.contextId == Some(root) || w.contextId == Some(root + "/" + rest)
  {
    if w.contextId.Some? {
      var context := w.contextId.value;
      var i := FirstSlash(context);
      assert context[..i] + context[i..] == context;
      if i == |context| {
        SplitSingle(context);
      } else {
        assert context == context[..i] + "/" + context[i + 1..];
        SplitPrepend(context[..i], context[i + 1..]);
      }
      if rest :| context == root + "/" + rest { SplitPrepend(root, rest); }
    }
  }

  /** The two records agree on what a scheme derives their keys from. */
  ghost predicate SameKeyGroup(scheme: Scheme, v: Write, w: Write)
  {
    var d, e := v.descriptor, w.descriptor;
    match scheme
    case DataFormats => d.schema == e.schema && d.dataFormat == e.dataFormat
    case Schemas => d.schema == e.schema
    case ProtocolPaths => d.protocol == e.protocol && d.protocolPath == e.protocolPath
    case ProtocolContext =>
      v.contextId.Some? && w.contextId.Some? && Split(v.contextId.value)[0] == Split(w.contextId.value)[0]
  }

  /** Two records are encrypted with one key exactly when they agree on what the
      scheme groups records by; no key is shared between schemes. */
  lemma SharedPathIff(scheme: Scheme, v: Write, other: Scheme, w: Write)
    requires PathFor(scheme, v).Ok? && PathFor(other, w).Ok?
    ensures PathFor(scheme, v) == PathFor(other, w) <==> scheme == other && SameKeyGroup(scheme, v, w)
  {
    var p, q := PathFor(scheme, v).value, PathFor(other, w).value;
    assert p[0] == scheme.Text() && q[0] == other.Text();
    SchemesApart(scheme, other);
    if scheme == other && scheme == ProtocolPaths {
      JoinSplit(v.descriptor.protocolPath.value);
      JoinSplit(w.descriptor.protocolPath.value);
      assert p[1] == v.descriptor.protocol.value && q[1] == w.descriptor.protocol.value;
      assert p[2..] == Split(v.descriptor.protocolPath.value) && q[2..] == Split(w.descriptor.protocolPath.value);
    }
  }

  lemma SchemesApart(a: Scheme, b: Scheme)
    ensures a.Text() == b.Text() <==> a == b
  {
    assert |DataFormats.Text()| == 11 && |Schemas.Text()| == 7;
    assert |ProtocolContext.Text()| == 15 && |ProtocolPaths.Text()| == 12;
  }

  // ----- labelling ---------------------------------------------------------

  /** No name in the tree is empty. */
  predicate Nameable(node: RuleSet)
  {
    forall name :: name in node.structure ==> name != "" && Nameable(node.structure[name])
  }

  /** The tree below a node, each rule set labelled with the public key derived
      from that of the node above it. */
  function Labelled(crypto: Crypto, node: RuleSet, rootKeyId: string, secret: Bytes): RuleSet
    decreases node, 1
  {
    node.(structure := map name | name in node.structure :: LabelledAt(crypto, node, rootKeyId, secret, name))
  }

  function LabelledAt(crypto: Crypto, node: RuleSet, rootKeyId: string, secret: Bytes, name: string): RuleSet
    requires name in node.structure
    decreases node, 0
  {
    var key := crypto.expand(secret, name);
    Labelled(crypto, node.structure[name], rootKeyId, key)
      .(encryption := Some(PathEncryption(rootKeyId, crypto.publicKey(key))))
  }

  /** Labels the rule sets below a node, from the key derived for the node. */
  method AddEncryption(crypto: Crypto, node: RuleSet, parent: DerivedKey) returns (r: Result<RuleSet>)
    requires SoundCrypto(crypto) && Secret(crypto, parent.key).Some?
    ensures r.Ok? <==> Nameable(node)
    ensures r.Ok? ==> r.value == Labelled(crypto, node, parent.rootKeyId, Secret(crypto, parent.key).value)
    decreases node, 1
  {
    var names := Names(node);
    var structure, k := node.structure, 0;
    ghost var secret := Secret(crypto, parent.key).value;
    while k < |names|
      invariant 0 <= k <= |names|
      invariant structure.Keys == node.structure.Keys
      invariant forall i :: 0 <= i < k ==> IsDone(crypto, node, parent.rootKeyId, secret, structure, names[i])
    {
      var labelled := Encrypt(crypto, node, names[k], parent);
      if labelled.Err? {
        return labelled;
      }
      structure := structure[names[k] := labelled.value];
      k := k + 1;
    }
    AllDone(crypto, node, parent.rootKeyId, secret, structure, names);
    return Ok(node.(structure := structure));
  }

  predicate IsDone(crypto: Crypto, node: RuleSet, rootKeyId: string, secret: Bytes, structure: map<string, RuleSet>,
                   name: string)
  {
    && name in node.structure && name in structure
    && structure[name] == LabelledAt(crypto, node, rootKeyId, secret, name)
    && name != "" && Nameable(node.structure[name])
  }

  lemma AllDone(crypto: Crypto, node: RuleSet, rootKeyId: string, secret: Bytes, structure: map<string, RuleSet>,
                names: seq<string>)
    requires structure.Keys == node.structure.Keys == Elements(names)
    requires forall i :: 0 <= i < |names| ==> IsDone(crypto, node, rootKeyId, secret, structure, names[i])
    ensures node.(structure := structure) == Labelled(crypto, node, rootKeyId, secret) && Nameable(node)
  {
    forall name | name in node.structure ensures IsDone(crypto, node, rootKeyId, secret, structure, name) {
      assert name in Elements(names);
    }
    assert structure == Labelled(crypto, node, rootKeyId, secret).structure;
  }

  /** Labels one rule set of a node, and those below it. */
  method Encrypt(crypto: Crypto, node: RuleSet, name: string, parent: DerivedKey) returns (r: Result<RuleSet>)
    requires SoundCrypto(crypto) && Secret(crypto, parent.key).Some? && name in node.structure
    ensures r.Ok? <==> name != "" && Nameable(node.structure[name])
    ensures r.Ok? ==> r.value == LabelledAt(crypto, node, parent.rootKeyId, Secret(crypto, parent.key).value, name)
    decreases node, 0
  {
    var derived := DeriveJwk(crypto, parent, Relative([name]));
    ChildKey(crypto, parent, name);
    if derived.Err? {
      return Err(derived.error);
    }
    r := AddEncryption(crypto, node.structure[name], derived.value);
    if r.Ok? {
      r := Ok(r.value.(encryption := Some(PathEncryption(parent.rootKeyId, derived.value.key.publicKey))));
    }
  }

  lemma ChildKey(crypto: Crypto, parent: DerivedKey, name: string)
    requires SoundCrypto(crypto) && Secret(crypto, parent.key).Some?
    ensures var secret, child := Secret(crypto, parent.key).value, Descend(crypto, parent, Relative([name]));
            && (child.Ok? <==> name != "")
            && (child.Ok? ==> child.value.rootKeyId == parent.rootKeyId)
            && (child.Ok? ==> Secret(crypto, child.value.key) == Some(crypto.expand(secret, name)))
            && (child.Ok? ==> child.value.key.publicKey == crypto.publicKey(crypto.expand(secret, name)))
  {
    var secret := Secret(crypto, parent.key).value;
    assert [name][..0] == [];
    assert Derive(crypto, secret, []) == Ok(secret);
    assert Reversible(crypto, crypto.expand(secret, name)) && FullLength(crypto, secret, name);
  }

  function RootKey(rootKeyId: string, key: PrivateKey): DerivedKey
  {
    DerivedKey(rootKeyId, ProtocolPaths, None, key)
  }

  /** Labels a definition's rule tree. */
  method WithEncryption(crypto: Crypto, d: Definition, rootKeyId: string, key: PrivateKey)
    returns (r: Result<Definition>)
    requires SoundCrypto(crypto)
    ensures r.Ok? <==> Secret(crypto, key).Some? && d.protocol != "" && Nameable(d.root)
    ensures r.Ok? ==> IsLabelledFor(crypto, d, rootKeyId, key, r.value)
  {
    var path := [ProtocolPaths.Text(), d.protocol];
    var derived := DeriveJwk(crypto, RootKey(rootKeyId, key), Relative(path));
    ProtocolKey(crypto, d, rootKeyId, key);
    if derived.Err? {
      return Err(derived.error);
    }
    var labelled := AddEncryption(crypto, d.root, derived.value);
    if labelled.Err? {
      return Err(labelled.error);
    }
    return Ok(d.(root := labelled.value));
  }

  lemma ProtocolKey(crypto: Crypto, d: Definition, rootKeyId: string, key: PrivateKey)
    requires SoundCrypto(crypto)
    ensures var path := [ProtocolPaths.Text(), d.protocol];
            var derived := Descend(crypto, RootKey(rootKeyId, key), Relative(path));
            && (derived.Ok? <==> Secret(crypto, key).Some? && d.protocol != "")
            && (derived.Ok? ==> derived.value.rootKeyId == rootKeyId && Secret(crypto, derived.value.key).Some?)
            && (derived.Ok? ==>
                  Derive(crypto, Secret(crypto, key).value, path) == Ok(Secret(crypto, derived.value.key).value))
  {
    var path := [ProtocolPaths.Text(), d.protocol];
    assert ProtocolPaths.Text()[0] == 'p';
    if Secret(crypto, key).Some? {
      var secret := Secret(crypto, key).value;
      DerivesIff(crypto, secret, path);
      if d.protocol != "" { assert Reversible(crypto, Derive(crypto, secret, path).value); }
    }
  }

  /** The definition's tree is labelled from the key derived for the protocol. */
  ghost predicate IsLabelledFor(crypto: Crypto, d: Definition, rootKeyId: string, key: PrivateKey, labelled: Definition)
  {
    && Secret(crypto, key).Some?
    && var base := Derive(crypto, Secret(crypto, key).value, [ProtocolPaths.Text(), d.protocol]);
       base.Ok? && labelled == d.(root := Labelled(crypto, d.root, rootKeyId, base.value))
  }

  // ----- the labels are the keys of records --------------------------------

  lemma LabelledShape(crypto: Crypto, node: RuleSet, rootKeyId: string, secret: Bytes)
    ensures var labelled := Labelled(crypto, node, rootKeyId, secret);
            labelled.(structure := map[]) == node.(structure := map[]) && labelled.structure.Keys == node.structure.Keys
  {
  }

  /** The label at the end of a list of names is the key derived along it, and
      nothing but labels has changed. */
  lemma {:induction false} LabelIsDerived(crypto: Crypto, node: RuleSet, rootKeyId: string, secret: Bytes,
                                          names: seq<string>)
    requires SoundCrypto(crypto) && Nameable(node) && names != [] && RuleAt(node, names).Some?
    ensures var found := RuleAt(Labelled(crypto, node, rootKeyId, secret), names);
            && Derive(crypto, secret, names).Ok?
            && found.Some?
            && found.value.encryption ==
                 Some(PathEncryption(rootKeyId, crypto.publicKey(Derive(crypto, secret, names).value)))
            && found.value.(encryption := None, structure := map[]) ==
                 RuleAt(node, names).value.(encryption := None, structure := map[])
            && found.value.structure.Keys == RuleAt(node, names).value.structure.Keys
    decreases |names|
  {
    var name, rest := names[0], names[1..];
    var child, key := node.structure[name], crypto.expand(secret, name);
    assert [name][..0] == [];
    assert Derive(crypto, secret, []) == Ok(secret);
    assert Derive(crypto, secret, [name]) == Ok(key);
    assert names == [name] + rest;
    DeriveSplits(crypto, secret, [name], rest);
    var labelled := LabelledAt(crypto, node, rootKeyId, secret, name);
    assert Labelled(crypto, node, rootKeyId, secret).structure[name] == labelled;
    LabelledShape(crypto, child, rootKeyId, key);
    if rest != [] {
      LabelIsDerived(crypto, child, rootKeyId, key, rest);
      assert labelled.structure == Labelled(crypto, child, rootKeyId, key).structure;
    }
  }

  /** A record of a labelled protocol, at any path of its tree: the public key that
      the labelling put there is that of the key derived from the root key along
      the path computed for decrypting the record. */
  lemma LabelDecryptsRecord(crypto: Crypto, d: Definition, rootKeyId: string, key: PrivateKey, labelled: Definition,
                            w: Write)
    requires SoundCrypto(crypto) && Nameable(d.root) && d.protocol != ""
    requires IsLabelledFor(crypto, d, rootKeyId, key, labelled)
    requires w.descriptor.protocol == Some(d.protocol) && w.descriptor.protocolPath.Some?
    requires RuleSetOf(w.descriptor.protocolPath.value, d.root).Some?
    ensures var path := PathFor(ProtocolPaths, w);
            && path.Ok?
            && var derived := Descend(crypto, RootKey(rootKeyId, key), Full(path.value));
               && derived.Ok?
               && var found := RuleSetOf(w.descriptor.protocolPath.value, labelled.root);
                  found.Some? && found.value.encryption == Some(PathEncryption(rootKeyId, derived.value.key.publicKey))
  {
    var path, secret := w.descriptor.protocolPath.value, Secret(crypto, key).value;
    var base, names := [ProtocolPaths.Text(), d.protocol], Split(path);
    LookupFollowsPath(path, d.root);
    LookupFollowsPath(path, labelled.root);
    var mid := Derive(crypto, secret, base).value;
    LabelIsDerived(crypto, d.root, rootKeyId, mid, names);
    DeriveSplits(crypto, secret, base, names);
    assert (base + names)[0..] == base + names;
  }
}
