/**
 Ordered maps. A `BTreeMap<String, V>` is a `map<string, V>` that is walked in
 ascending key order. `Arrange` lists a finite set of CIDs by the keys given to
 them; it is the reference every ordered result is compared with.
 */
module Order {
  import opened Text

  ghost predicate Ascending(r: seq<string>)
  {
    forall i, j :: 0 <= i < j < |r| ==> Less(r[i], r[j])
  }

  function Elements<T>(r: seq<T>): set<T>
  {
    set x | x in r
  }

  function Reversed<T>(s: seq<T>): (r: seq<T>)
    ensures |r| == |s| && forall i :: 0 <= i < |s| ==> r[i] == s[|s| - 1 - i]
  {
    if s == [] then [] else Reversed(s[1..]) + [s[0]]
  }

  lemma ElementsEmpty<T>(r: seq<T>)
    ensures r == [] <==> Elements(r) == {}
  {
    if r != [] { assert r[0] in Elements(r); }
  }

  lemma {:induction false} LeastExists(s: set<string>) returns (m: string)
    requires s != {}
    ensures m in s && forall x :: x in s && x != m ==> Less(m, x)
  {
    var e :| e in s;
    m := e;
    var rest := s - {e};
    assert forall x :: x in s ==> x == e || x in rest;
    if rest != {} {
      var n := LeastExists(rest);
      LessTotal(e, n);
      m := if Less(n, e) then n else e;
      forall x | x in s && x != m ensures Less(m, x) {
        if m == e && x != n { LessTransitive(e, n, x); }
      }
    }
  }

  predicate IsLeast(m: string, s: set<string>)
  {
    m in s && forall x :: x in s && x != m ==> Less(m, x)
  }

  /** The least string of a non-empty set. */
  function Least(s: set<string>): (m: string)
    requires s != {}
    ensures IsLeast(m, s)
  {
    assert exists m :: IsLeast(m, s) by {
      var m := LeastExists(s);
      assert IsLeast(m, s);
    }
    assert forall m, n :: IsLeast(m, s) && IsLeast(n, s) ==> m == n by {
      forall m, n | IsLeast(m, s) && IsLeast(n, s) ensures m == n {
        if m != n { LessAsymmetric(m, n); }
      }
    }
    var m :| IsLeast(m, s);
    m
  }

  /** The keys of an ordered map, in the order they are walked. */
  function SortedKeys(s: set<string>): (r: seq<string>)
    ensures Ascending(r) && Elements(r) == s
  {
    if s == {} then []
    else
      var m := Least(s);
      var rest := SortedKeys(s - {m});
      assert forall i :: 0 <= i < |rest| ==> rest[i] in Elements(rest);
      assert Elements([m] + rest) == {m} + Elements(rest);
      [m] + rest
  }

  /** Two ascending listings of one set are the same listing. */
  lemma {:induction false} AscendingUnique(a: seq<string>, b: seq<string>)
    requires Ascending(a) && Ascending(b) && Elements(a) == Elements(b)
    ensures a == b
  {
    ElementsEmpty(a);
    ElementsEmpty(b);
    if a != [] {
      assert a[0] in Elements(b);
      assert b[0] in Elements(a);
      assert a[0] == b[0] by {
        if a[0] != b[0] {
          var i :| 0 <= i < |a| && a[i] == b[0];
          var j :| 0 <= j < |b| && b[j] == a[0];
          LessAsymmetric(a[0], b[0]);
        }
      }
      TailElements(a);
      TailElements(b);
      AscendingUnique(a[1..], b[1..]);
      assert a == [a[0]] + a[1..] && b == [b[0]] + b[1..];
    }
  }

  lemma TailElements(a: seq<string>)
    requires Ascending(a) && a != []
    ensures Elements(a[1..]) == Elements(a) - {a[0]}
  {
    forall i | 0 < i < |a| ensures a[i] != a[0] {
      LessAsymmetric(a[0], a[i]);
    }
    assert a == [a[0]] + a[1..];
  }

  /** Distinct CIDs have distinct keys. */
  ghost predicate Injective(keys: map<string, string>)
  {
    forall c, d :: c in keys && d in keys && keys[c] == keys[d] ==> c == d
  }

  /** `r` lists CIDs by strictly ascending key. */
  ghost predicate AscendingBy(keys: map<string, string>, r: seq<string>)
  {
    && (forall i :: 0 <= i < |r| ==> r[i] in keys)
    && (forall i, j :: 0 <= i < j < |r| ==> Less(keys[r[i]], keys[r[j]]))
  }

  function KeySeq(keys: map<string, string>, r: seq<string>): (k: seq<string>)
    requires forall i :: 0 <= i < |r| ==> r[i] in keys
    ensures |k| == |r| && forall i :: 0 <= i < |r| ==> k[i] == keys[r[i]]
  {
    if r == [] then [] else [keys[r[0]]] + KeySeq(keys, r[1..])
  }

  ghost function Owner(keys: map<string, string>, k: string): (c: string)
    requires k in keys.Values
    ensures c in keys && keys[c] == k
  {
    var c :| c in keys && keys[c] == k;
    c
  }

  lemma ArrangementExists(keys: map<string, string>) returns (r: seq<string>)
    requires Injective(keys)
    ensures AscendingBy(keys, r) && Elements(r) == keys.Keys
  {
    var ks := SortedKeys(keys.Values);
    assert forall k :: k in ks ==> k in Elements(ks);
    r := seq(|ks|, i requires 0 <= i < |ks| => assert ks[i] in Elements(ks); Owner(keys, ks[i]));
    forall c | c in keys.Keys ensures c in Elements(r) {
      assert keys[c] in Elements(ks);
      var i :| 0 <= i < |ks| && ks[i] == keys[c];
      assert r[i] == c;
    }
  }

  /** The CIDs of `keys` in ascending order of their keys. */
  ghost function Arrange(keys: map<string, string>): (r: seq<string>)
    requires Injective(keys)
    ensures AscendingBy(keys, r) && Elements(r) == keys.Keys
  {
    assert exists r :: AscendingBy(keys, r) && Elements(r) == keys.Keys by {
      var r := ArrangementExists(keys);
    }
    var r :| AscendingBy(keys, r) && Elements(r) == keys.Keys;
    r
  }

  /** Any listing of the same CIDs by ascending key is `Arrange`. */
  lemma {:induction false} ArrangeUnique(keys: map<string, string>, r: seq<string>)
    requires Injective(keys)
    requires AscendingBy(keys, r) && Elements(r) == keys.Keys
    ensures r == Arrange(keys)
  {
    OneListing(keys, r, Arrange(keys));
  }

  lemma {:induction false} OneListing(keys: map<string, string>, r: seq<string>, s: seq<string>)
    requires Injective(keys) && AscendingBy(keys, r) && AscendingBy(keys, s) && Elements(r) == Elements(s)
    ensures r == s
  {
    var a, b := KeySeq(keys, r), KeySeq(keys, s);
    SameKeys(keys, r, s);
    SameKeys(keys, s, r);
    assert Ascending(a) && Ascending(b);
    AscendingUnique(a, b);
    SameOwners(keys, r, s);
  }

  lemma {:induction false} KeyListed(keys: map<string, string>, r: seq<string>, c: string)
    requires (forall i :: 0 <= i < |r| ==> r[i] in keys) && c in Elements(r)
    ensures c in keys && keys[c] in Elements(KeySeq(keys, r))
  {
    var i :| 0 <= i < |r| && r[i] == c;
    assert KeySeq(keys, r)[i] == keys[c];
  }

  lemma {:induction false} SameKeys(keys: map<string, string>, r: seq<string>, s: seq<string>)
    requires forall i :: 0 <= i < |r| ==> r[i] in keys
    requires (forall i :: 0 <= i < |s| ==> s[i] in keys) && Elements(r) <= Elements(s)
    ensures Elements(KeySeq(keys, r)) <= Elements(KeySeq(keys, s))
  {
    forall i | 0 <= i < |r| ensures keys[r[i]] in Elements(KeySeq(keys, s)) {
      assert r[i] in Elements(r);
      KeyListed(keys, s, r[i]);
    }
  }

  lemma {:induction false} SameOwners(keys: map<string, string>, r: seq<string>, s: seq<string>)
    requires Injective(keys) && (forall i :: 0 <= i < |r| ==> r[i] in keys)
    requires (forall i :: 0 <= i < |s| ==> s[i] in keys) && KeySeq(keys, r) == KeySeq(keys, s)
    ensures r == s
  {
    assert |KeySeq(keys, r)| == |r| && |KeySeq(keys, s)| == |s|;
    forall i | 0 <= i < |r| ensures r[i] == s[i] {
      assert KeySeq(keys, r)[i] == KeySeq(keys, s)[i];
    }
  }

  lemma NoRepeats(keys: map<string, string>, r: seq<string>)
    requires AscendingBy(keys, r)
    ensures forall i, j :: 0 <= i < j < |r| ==> r[i] != r[j]
  {
    forall i, j | 0 <= i < j < |r| ensures r[i] != r[j] {
      LessAsymmetric(keys[r[i]], keys[r[j]]);
    }
  }

  /** The keys that are not below a start key. */
  ghost function KeysFrom(keys: map<string, string>, start: string): map<string, string>
  {
    map c | c in keys && !Less(keys[c], start) :: keys[c]
  }

  lemma TailKeys(keys: map<string, string>, r: seq<string>, i: nat)
    requires AscendingBy(keys, r) && Elements(r) == keys.Keys && i < |r|
    ensures Elements(r[i..]) == KeysFrom(keys, keys[r[i]]).Keys
  {
    var start := keys[r[i]];
    forall j | 0 <= j < |r| ensures j < i <==> Less(keys[r[j]], start) {
      if i < j { LessAsymmetric(start, keys[r[j]]); }
      if i == j { LessIrreflexive(start); }
    }
    assert forall j :: i <= j < |r| ==> r[j] == r[i..][j - i];
    forall c | c in keys && !Less(keys[c], start) ensures c in Elements(r[i..]) {
      assert c in Elements(r);
    }
    forall c | c in Elements(r[i..]) ensures c in keys && !Less(keys[c], start) {
      var j :| 0 <= j < |r[i..]| && r[i..][j] == c;
      assert c == r[i + j];
    }
  }

  /** Arranging from the i-th key on drops the first i CIDs. */
  lemma ArrangeFrom(keys: map<string, string>, i: nat)
    requires Injective(keys) && i < |Arrange(keys)|
    ensures var r := Arrange(keys); Arrange(KeysFrom(keys, keys[r[i]])) == r[i..]
  {
    var r := Arrange(keys);
    TailKeys(keys, r, i);
    var late := KeysFrom(keys, keys[r[i]]);
    forall j | i <= j < |r| ensures r[j] in late {
      assert r[j] == r[i..][j - i] && r[j] in Elements(r[i..]);
    }
    ArrangeUnique(late, r[i..]);
  }
}
