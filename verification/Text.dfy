/**
 Text as the store sees it: sequences of Unicode scalar values in code point
 order (the order of Rust's `str`), the composite index keys built from it, and
 the range scan used to look a value up.
 */
module Text {

  // Separates a field's value from the message CID in an index key.
  const NULL: char := '\U{100000}'

  // The greatest character: the upper end of a range scan.
  const MAX: char := '\U{10FFFF}'

  /** Lexicographic order on strings. */
  predicate Less(a: string, b: string)
  {
    b != "" && (a == "" || a[0] < b[0] || (a[0] == b[0] && Less(a[1..], b[1..])))
  }

  lemma {:induction false} LessIrreflexive(a: string)
    ensures !Less(a, a)
  {
    if a != "" { LessIrreflexive(a[1..]); }
  }

  lemma {:induction false} LessTransitive(a: string, b: string, c: string)
    requires Less(a, b) && Less(b, c)
    ensures Less(a, c)
  {
    if a != "" && a[0] == b[0] && b[0] == c[0] { LessTransitive(a[1..], b[1..], c[1..]); }
  }

  lemma {:induction false} LessTotal(a: string, b: string)
    ensures a == b || Less(a, b) || Less(b, a)
  {
    if a != "" && b != "" && a[0] == b[0] {
      LessTotal(a[1..], b[1..]);
      assert a == [a[0]] + a[1..] && b == [b[0]] + b[1..];
    }
  }

  lemma LessAsymmetric(a: string, b: string)
    requires Less(a, b)
    ensures !Less(b, a) && a != b
  {
    LessIrreflexive(a);
    if Less(b, a) { LessTransitive(a, b, a); }
  }

  // A common prefix does not take part in a comparison.
  lemma {:induction false} LessCancel(p: string, a: string, b: string)
    ensures Less(p + a, p + b) == Less(a, b)
  {
    if p == "" {
      assert p + a == a && p + b == b;
    } else {
      LessCancel(p[1..], a, b);
      assert (p + a)[1..] == p[1..] + a && (p + b)[1..] == p[1..] + b;
    }
  }

  // Parts of equal width are compared before what follows them.
  lemma {:induction false} LessFixedWidth(a: string, b: string, x: string, y: string)
    requires |a| == |b|
    ensures Less(a + x, b + y) <==> Less(a, b) || (a == b && Less(x, y))
  {
    if a == "" {
      assert a + x == x && b + y == y;
    } else {
      LessFixedWidth(a[1..], b[1..], x, y);
      assert (a + x)[1..] == a[1..] + x && (b + y)[1..] == b[1..] + y;
      assert a == [a[0]] + a[1..] && b == [b[0]] + b[1..];
    }
  }

  predicate StartsWith(s: string, prefix: string)
  {
    prefix <= s
  }

  /** A range scan from `v` (excluded) to `v + MAX` (excluded) finds exactly the
      strings that extend `v` by something that does not begin with MAX. */
  lemma {:induction false} RangeScan(v: string, k: string)
    ensures Less(v, k) && Less(k, v + [MAX])
       <==> |v| < |k| && StartsWith(k, v) && k[|v|] != MAX
  {
    if v == "" {
      assert v + [MAX] == [MAX];
    } else if k != "" && v[0] == k[0] {
      RangeScan(v[1..], k[1..]);
      assert (v + [MAX])[1..] == v[1..] + [MAX];
      assert StartsWith(k, v) <==> StartsWith(k[1..], v[1..]) by {
        assert v == [v[0]] + v[1..] && k == [k[0]] + k[1..];
      }
    }
  }

  /** The key of a message in a field's index. */
  function Key(value: string, cid: string): string
  {
    value + [NULL] + cid
  }

  /** CID text never contains the separator. */
  predicate IsCid(cid: string)
  {
    NULL !in cid
  }

  /** Keys are injective, whatever the values contain. */
  lemma KeyInjective(v1: string, c1: string, v2: string, c2: string)
    requires IsCid(c1) && IsCid(c2)
    requires Key(v1, c1) == Key(v2, c2)
    ensures v1 == v2 && c1 == c2
  {
    var k := Key(v1, c1);
    assert k[|v1|] == NULL && forall i :: |v1| < i < |k| ==> k[i] == c1[i - |v1| - 1];
    assert k[|v2|] == NULL && forall i :: |v2| < i < |k| ==> k[i] == c2[i - |v2| - 1];
    assert |v1| == |v2|;
    assert v1 == k[..|v1|] && v2 == k[..|v2|];
    assert c1 == k[|v1| + 1..] && c2 == k[|v2| + 1..];
  }

  /** Among values of one width, keys are ordered by value, then by CID. */
  lemma KeyOrder(v1: string, c1: string, v2: string, c2: string)
    requires |v1| == |v2|
    ensures Less(Key(v1, c1), Key(v2, c2)) <==> Less(v1, v2) || (v1 == v2 && Less(c1, c2))
  {
    assert Key(v1, c1) == v1 + ([NULL] + c1) && Key(v2, c2) == v2 + ([NULL] + c2);
    LessFixedWidth(v1, v2, [NULL] + c1, [NULL] + c2);
    LessCancel([NULL], c1, c2);
  }

  /** The scan of an index misses a key only when the value goes on with MAX. */
  lemma ScanFindsKey(v: string, value: string, cid: string)
    requires IsCid(cid)
    ensures StartsWith(value, v) ==>
              ((Less(v, Key(value, cid)) && Less(Key(value, cid), v + [MAX]))
               <==> (|value| == |v| || value[|v|] != MAX))
  {
    if StartsWith(value, v) {
      var k := Key(value, cid);
      RangeScan(v, k);
      assert k[..|v|] == value[..|v|] == v;
      assert k[|v|] == if |value| == |v| then NULL else value[|v|];
    }
  }
}
