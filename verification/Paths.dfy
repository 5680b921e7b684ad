/** Slash-separated paths. */
module Paths {

  /** The segments of a path. */
  function Split(path: string): (segments: seq<string>)
    ensures segments != []
    ensures forall i :: 0 <= i < |segments| ==> '/' !in segments[i]
  {
    if path == "" then [""]
    else
      var rest := Split(path[1..]);
      if path[0] == '/' then [""] + rest else [[path[0]] + rest[0]] + rest[1..]
  }

  /** The path with the given segments. */
  function Join(segments: seq<string>): string
  {
    if segments == [] then ""
    else if |segments| == 1 then segments[0]
    else segments[0] + "/" + Join(segments[1..])
  }

  lemma {:induction false} SplitSingle(name: string)
    requires '/' !in name
    ensures Split(name) == [name]
  {
    if name != "" {
      SplitSingle(name[1..]);
      assert name == [name[0]] + name[1..];
    }
  }

  /** Appending a name to a path appends a segment. */
  lemma {:induction false} SplitAppend(path: string, name: string)
    requires '/' !in name
    ensures Split(path + "/" + name) == Split(path) + [name]
  {
    var whole := path + "/" + name;
    if path == "" {
      assert whole[0] == '/' && whole[1..] == name;
      SplitSingle(name);
    } else {
      assert whole[0] == path[0] && whole[1..] == path[1..] + "/" + name;
      SplitAppend(path[1..], name);
      var rest := Split(path[1..]);
      assert (rest + [name])[0] == rest[0] && (rest + [name])[1..] == rest[1..] + [name];
    }
  }

  lemma {:induction false} SplitPrepend(name: string, path: string)
    requires '/' !in name
    ensures Split(name + "/" + path) == [name] + Split(path)
  {
    var whole := name + "/" + path;
    if name == "" {
      assert whole[0] == '/' && whole[1..] == path;
    } else {
      assert whole[0] == name[0] && whole[1..] == name[1..] + "/" + path;
      SplitPrepend(name[1..], path);
      assert name == [name[0]] + name[1..];
      assert ([name[1..]] + Split(path))[1..] == Split(path);
    }
  }

  /** Joining undoes splitting. */
  lemma {:induction false} JoinSplit(path: string)
    ensures Join(Split(path)) == path
  {
    if path != "" {
      JoinSplit(path[1..]);
      var rest := Split(path[1..]);
      assert path == [path[0]] + path[1..];
      if path[0] == '/' {
        assert ([""] + rest)[1..] == rest;
      } else if |rest| > 1 {
        var r := [[path[0]] + rest[0]] + rest[1..];
        assert r[1..] == rest[1..];
      }
    }
  }
}
