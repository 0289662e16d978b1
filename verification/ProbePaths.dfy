/** JSON paths of the probe language (internal/monitor/probe.go:223-252). */
module ProbePaths {
  import opened Text
  import opened Values
  import opened Wrappers

  datatype PathError =
    | EmptyPath
    | InvalidPath
    | NotAddressable(key: string)
    | KeyNotFound(key: string)

  function TrimPrefix(s: string, prefix: string): string {
    if prefix <= s then s[|prefix|..] else s
  }

  function WalkSegments(current: Value, segments: seq<string>): Result<Value, PathError> {
    if |segments| == 0 then Ok(current)
    else
      var key := TrimSpace(segments[0]);
      if key == "" then Err(InvalidPath)
      else if !current.Object? then Err(NotAddressable(key))
      else if key !in current.fields then Err(KeyNotFound(key))
      else WalkSegments(current.fields[key], segments[1..])
  }

  /** The path after its root marker: `$.` and then `$` are dropped from the front. */
  function Unrooted(path: string): string {
    TrimPrefix(TrimPrefix(path, "$."), "$")
  }

  function Resolve(root: Value, rawPath: string): Result<Value, PathError> {
    var path := TrimSpace(rawPath);
    if path == "" then Err(EmptyPath)
    else if Unrooted(path) == "" then Ok(root)
    else WalkSegments(root, Split(Unrooted(path), '.'))
  }

  method ResolveJsonPath(root: Value, rawPath: string) returns (r: Result<Value, PathError>)
    ensures r == Resolve(root, rawPath)
  {
    var path := TrimSpace(rawPath);
    if path == "" {
      return Err(EmptyPath);
    }
    path := TrimPrefix(path, "$.");
    path := TrimPrefix(path, "$");
    if path == "" {
      return Ok(root);
    }
    var segments := Split(path, '.');
    var current := root;
    for i := 0 to |segments|
      invariant WalkSegments(root, segments) == WalkSegments(current, segments[i..])
    {
      var key := TrimSpace(segments[i]);
      if key == "" {
        return Err(InvalidPath);
      }
      if !current.Object? {
        return Err(NotAddressable(key));
      }
      if key !in current.fields {
        return Err(KeyNotFound(key));
      }
      assert segments[i..][1..] == segments[i + 1..];
      current := current.fields[key];
    }
    return Ok(current);
  }

  // ---------- Following keys ----------

  /** The node reached by following the keys, if there is one. */
  function Follow(root: Value, keys: seq<string>): Option<Value> {
    if |keys| == 0 then Some(root)
    else if root.Object? && keys[0] in root.fields then Follow(root.fields[keys[0]], keys[1..])
    else None
  }

  function PathOf(keys: seq<string>): string {
    "$." + Join(keys, '.')
  }

  /** Keys a path can spell: non-empty, without surrounding whitespace or dots. */
  predicate AreKeys(keys: seq<string>) {
    forall i :: 0 <= i < |keys| ==> IsKey(keys[i])
  }

  predicate IsKey(key: string) {
    key != "" && Trimmed(key) && '.' !in key
  }

  /** The result is the node, and a failure says there is none. */
  predicate Agrees(r: Result<Value, PathError>, node: Option<Value>) {
    match r
    case Ok(v) => node == Some(v)
    case Err(_) => node == None
  }

  lemma {:induction false} WalkFollows(root: Value, keys: seq<string>)
    requires AreKeys(keys)
    ensures Agrees(WalkSegments(root, keys), Follow(root, keys))
  {
    if |keys| > 0 {
      assert IsKey(keys[0]) && TrimSpace(keys[0]) == keys[0];
      if root.Object? && keys[0] in root.fields {
        WalkFollows(root.fields[keys[0]], keys[1..]);
      }
    }
  }

  lemma {:induction false} JoinEnds(keys: seq<string>)
    requires AreKeys(keys) && |keys| > 0
    ensures var joined := Join(keys, '.');
      && joined != "" && joined[0] == keys[0][0]
      && !IsSpace(joined[|joined| - 1])
      && |joined| >= |keys[0]| && (|joined| == |keys[0]| ==> |keys| == 1)
  {
    assert IsKey(keys[0]);
    if |keys| > 1 {
      JoinEnds(keys[1..]);
    }
  }

  lemma PathIsTrimmed(keys: seq<string>)
    requires AreKeys(keys)
    ensures TrimSpace(PathOf(keys)) == PathOf(keys) && TrimPrefix(PathOf(keys), "$.") == Join(keys, '.')
  {
    var path, joined := PathOf(keys), Join(keys, '.');
    assert path[0] == '$' && path[2..] == joined && path[..2] == "$.";
    if |keys| > 0 {
      JoinEnds(keys);
      assert path[|path| - 1] == joined[|joined| - 1];
    } else {
      assert path[|path| - 1] == '.';
    }
  }

  lemma KeysLackDots(keys: seq<string>)
    requires AreKeys(keys)
    ensures AllLack(keys, '.')
  {
    forall i | 0 <= i < |keys| ensures '.' !in keys[i] {
      assert IsKey(keys[i]);
    }
  }

  /** Unless the first key starts with `$`, resolving the spelled path is following the
      keys, on every root. */
  lemma PathRoundTrip(root: Value, keys: seq<string>)
    requires AreKeys(keys) && (|keys| > 0 ==> keys[0][0] != '$')
    ensures Agrees(Resolve(root, PathOf(keys)), Follow(root, keys))
  {
    PathIsTrimmed(keys);
    if |keys| > 0 {
      JoinEnds(keys);
      KeysLackDots(keys);
      SplitJoin(keys, '.');
      WalkFollows(root, keys);
    }
  }

  ghost predicate Spells(path: string, keys: seq<string>) {
    forall root :: Agrees(Resolve(root, path), Follow(root, keys))
  }

  /** A document in which following the keys leads to a leaf. */
  function Chain(keys: seq<string>): Value {
    if |keys| == 0 then Bool(true) else Object(map[keys[0] := Chain(keys[1..])])
  }

  lemma {:induction false} ChainFollows(keys: seq<string>)
    ensures Follow(Chain(keys), keys) == Some(Bool(true))
  {
    if |keys| > 0 {
      ChainFollows(keys[1..]);
    }
  }

  /** A first key that starts with `$` loses it: the path then never leads to the leaf that
      the keys lead to. */
  lemma DollarKeyLost(keys: seq<string>)
    requires AreKeys(keys) && |keys| > 0 && keys[0][0] == '$'
    ensures !Agrees(Resolve(Chain(keys), PathOf(keys)), Follow(Chain(keys), keys))
  {
    var root, joined := Chain(keys), Join(keys, '.');
    PathIsTrimmed(keys);
    JoinEnds(keys);
    ChainFollows(keys);
    assert IsKey(keys[0]);
    var rest := joined[1..];
    assert Unrooted(PathOf(keys)) == rest by {
      assert joined[..1] == "$";
    }
    if rest != "" {
      FirstSegmentDiffers(keys);
      var segment := TrimSpace(Split(rest, '.')[0]);
      assert segment != keys[0];
      assert root.fields.Keys == {keys[0]};
    }
  }

  lemma FirstSegmentDiffers(keys: seq<string>)
    requires AreKeys(keys) && |keys| > 0 && keys[0][0] == '$' && Join(keys, '.') != "$"
    ensures |TrimSpace(Split(Join(keys, '.')[1..], '.')[0])| < |keys[0]|
  {
    var key, joined := keys[0], Join(keys, '.');
    assert IsKey(key);
    var short := key[1..];
    assert joined == key + joined[|key|..];
    assert joined[1..] == short + joined[|key|..];
    assert forall i :: 0 <= i < |short| ==> short[i] == key[i + 1] && short[i] in key;
    if |keys| == 1 {
      assert joined[1..] == short;
      assert IndexOf(short, '.') == |short|;
    } else {
      assert joined[|key|..][0] == '.';
      IndexOfUnique(joined[1..], '.', |short|);
      assert joined[1..][..|short|] == short;
    }
    TrimSpaceKeepsOnly(short);
  }

  /** The exact condition: a path spells its keys if and only if the first key does not
      start with `$`. */
  lemma PathSpellsIff(keys: seq<string>)
    requires AreKeys(keys)
    ensures Spells(PathOf(keys), keys) <==> |keys| == 0 || keys[0][0] != '$'
  {
    if |keys| == 0 || keys[0][0] != '$' {
      forall root ensures Agrees(Resolve(root, PathOf(keys)), Follow(root, keys)) {
        PathRoundTrip(root, keys);
      }
    } else {
      DollarKeyLost(keys);
    }
  }

  // ---------- Two stages ----------

  lemma {:induction false} FollowConcat(root: Value, a: seq<string>, b: seq<string>)
    ensures Follow(root, a + b)
         == match Follow(root, a) case Some(node) => Follow(node, b) case None => None
  {
    if |a| == 0 {
      assert a + b == b;
    } else if root.Object? && a[0] in root.fields {
      assert (a + b)[1..] == a[1..] + b;
      FollowConcat(root.fields[a[0]], a[1..], b);
    }
  }

  /** Resolving a longer path is resolving its beginning, then the rest from there. */
  lemma ResolveInStages(root: Value, a: seq<string>, b: seq<string>, middle: Value)
    requires AreKeys(a) && AreKeys(b) && (|a| > 0 ==> a[0][0] != '$') && (|b| > 0 ==> b[0][0] != '$')
    requires Resolve(root, PathOf(a)) == Ok(middle)
    ensures Resolve(root, PathOf(a + b)).Ok? <==> Resolve(middle, PathOf(b)).Ok?
    ensures Resolve(middle, PathOf(b)).Ok? ==> Resolve(root, PathOf(a + b)) == Resolve(middle, PathOf(b))
  {
    assert AreKeys(a + b);
    PathRoundTrip(root, a);
    PathRoundTrip(root, a + b);
    PathRoundTrip(middle, b);
    FollowConcat(root, a, b);
  }

  /** And a path whose beginning cannot be resolved cannot be resolved. */
  lemma ResolveFailsEarly(root: Value, a: seq<string>, b: seq<string>)
    requires AreKeys(a) && AreKeys(b) && |a| > 0 && a[0][0] != '$'
    requires Resolve(root, PathOf(a)).Err?
    ensures Resolve(root, PathOf(a + b)).Err?
  {
    assert AreKeys(a + b);
    PathRoundTrip(root, a);
    PathRoundTrip(root, a + b);
    FollowConcat(root, a, b);
  }

  // ---------- Other spellings ----------

  lemma JoinedIsTrimmed(keys: seq<string>)
    requires AreKeys(keys) && |keys| > 0 && keys[0][0] != '$'
    ensures var joined := Join(keys, '.');
      joined != "" && joined[0] != '$' && joined[0] != '.' && Trimmed(joined) && Trimmed("$" + joined)
  {
    hide Join;
    JoinEnds(keys);
    assert IsKey(keys[0]);
    var joined := Join(keys, '.');
    assert ("$" + joined)[0] == '$' && ("$" + joined)[|joined|] == joined[|joined| - 1];
  }

  lemma UnrootedSpellings(joined: string)
    requires joined != "" && joined[0] != '$' && joined[0] != '.'
    ensures Unrooted(joined) == joined && Unrooted("$" + joined) == joined
  {
    var marked := "$" + joined;
    assert marked[0] == '$' && marked[1] == joined[0] && marked[1..] == joined;
    assert "$."[0] == '$' && "$."[1] == '.';
    assert "$" <= marked;
  }

  /** A path may be written with or without its root marker, or with half of it. */
  lemma OtherSpellings(root: Value, keys: seq<string>)
    requires AreKeys(keys) && |keys| > 0 && keys[0][0] != '$'
    ensures Agrees(Resolve(root, Join(keys, '.')), Follow(root, keys))
    ensures Agrees(Resolve(root, "$" + Join(keys, '.')), Follow(root, keys))
  {
    var joined := Join(keys, '.');
    JoinedIsTrimmed(keys);
    KeysLackDots(keys);
    SplitJoin(keys, '.');
    WalkFollows(root, keys);
    hide WalkSegments, Split, Join, Unrooted;
    UnrootedSpellings(joined);
    assert TrimSpace(joined) == joined && TrimSpace("$" + joined) == "$" + joined;
  }

  /** The root markers alone are the document, and a blank path is refused. */
  lemma RootPaths(root: Value)
    ensures Resolve(root, "$") == Ok(root) && Resolve(root, "$.") == Ok(root)
  {
    hide WalkSegments;
    assert TrimSpace("$") == "$" && TrimSpace("$.") == "$.";
    hide TrimSpace;
    assert !("$." <= "$") && "$"[1..] == "" && "$."[2..] == "" && "$" <= "$" && "$." <= "$.";
    assert !("$" <= "");
  }

  /** Whitespace around a path does not matter. */
  lemma PaddedPath(root: Value, rawPath: string)
    ensures Resolve(root, rawPath) == Resolve(root, TrimSpace(rawPath))
    ensures Blank(rawPath) <==> Resolve(root, rawPath) == Err(EmptyPath)
  {
    assert TrimSpace(TrimSpace(rawPath)) == TrimSpace(rawPath);
    hide TrimSpace;
    WalkErrors(root, Split(Unrooted(TrimSpace(rawPath)), '.'));
  }

  /** The node a walk has reached is not an object, or has no such key. */
  predicate StopsAt(node: Value, segment: string, e: PathError) {
    var key := TrimSpace(segment);
    || (key == "" && e == InvalidPath)
    || (key != "" && !node.Object? && e == NotAddressable(key))
    || (key != "" && node.Object? && key !in node.fields && e == KeyNotFound(key))
  }

  function TrimmedKeys(segments: seq<string>): (keys: seq<string>)
    ensures |keys| == |segments| && forall i :: 0 <= i < |keys| ==> keys[i] == TrimSpace(segments[i])
  {
    seq(|segments|, i requires 0 <= i < |segments| => TrimSpace(segments[i]))
  }

  /** An error names the first key that leads nowhere, and says why. */
  lemma {:induction false} WalkErrors(root: Value, segments: seq<string>)
    ensures match WalkSegments(root, segments)
            case Ok(v) => Follow(root, TrimmedKeys(segments)) == Some(v) && forall i :: 0 <= i < |segments| ==> !Blank(segments[i])
            case Err(e) => exists i :: 0 <= i < |segments| && Follow(root, TrimmedKeys(segments)[..i]).Some?
                                    && StopsAt(Follow(root, TrimmedKeys(segments)[..i]).value, segments[i], e)
  {
    hide TrimSpace;
    if |segments| > 0 {
      var key, keys := TrimSpace(segments[0]), TrimmedKeys(segments);
      assert keys[..0] == [] && Follow(root, []) == Some(root);
      if key != "" && root.Object? && key in root.fields {
        var next, rest := root.fields[key], segments[1..];
        WalkErrors(next, rest);
        assert keys[1..] == TrimmedKeys(rest);
        if WalkSegments(next, rest).Err? {
          var i :| 0 <= i < |rest| && Follow(next, TrimmedKeys(rest)[..i]).Some?
                && StopsAt(Follow(next, TrimmedKeys(rest)[..i]).value, rest[i], WalkSegments(next, rest).error);
          assert keys[..i + 1][1..] == TrimmedKeys(rest)[..i];
          assert Follow(root, keys[..i + 1]) == Follow(next, TrimmedKeys(rest)[..i]);
          assert segments[i + 1] == rest[i];
        }
      } else {
        assert StopsAt(root, segments[0], WalkSegments(root, segments).error);
      }
    }
  }

  /** On a spelled path the error says which key of the list is missing. */
  lemma PathErrors(root: Value, keys: seq<string>)
    requires AreKeys(keys) && (|keys| > 0 ==> keys[0][0] != '$')
    requires Resolve(root, PathOf(keys)).Err?
    ensures exists i :: 0 <= i < |keys| && Follow(root, keys[..i]).Some?
                     && StopsAt(Follow(root, keys[..i]).value, keys[i], Resolve(root, PathOf(keys)).error)
  {
    PathIsTrimmed(keys);
    if |keys| > 0 {
      JoinEnds(keys);
      KeysLackDots(keys);
      SplitJoin(keys, '.');
      WalkErrors(root, keys);
      assert TrimmedKeys(keys) == keys by {
        forall i | 0 <= i < |keys| ensures TrimSpace(keys[i]) == keys[i] {
          assert IsKey(keys[i]);
        }
      }
    }
  }
}
