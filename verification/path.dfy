/**
 Turning the user's dotted pattern into key segments (`ExportSpec::from_str`)
 and resolving those segments in a value tree (`get_path`).
 */
module Path {
  import opened Wrappers
  import opened Text
  import opened Values

  /** The tool's own error: a path that does not resolve. The key is the
      whole requested path, joined with `.`. */
  datatype Error = NoSuchKey(key: string)

  /** The user-facing text of an error: a fixed prefix, then the key. */
  function Message(e: Error): (r: string)
    ensures |r| == 13 + |e.key| && r[..13] == "No such key: " && r[13..] == e.key
  {
    "No such key: " + e.key
  }

  /** A parsed pattern: the key segments to follow, in order. */
  datatype ExportSpec = ExportSpec(path: seq<string>)

  /** Splits a pattern on every literal `.`; parsing never fails. There is
      always at least one segment, no segment contains `.`, the segments
      joined with `.` give the pattern back, and the empty pattern is the one
      empty segment. */
  function ParsePattern(pattern: string): (spec: ExportSpec)
    ensures |spec.path| >= 1
    ensures forall i :: 0 <= i < |spec.path| ==> '.' !in spec.path[i]
    ensures Join(".", spec.path) == pattern
    ensures pattern == "" ==> spec.path == [""]
  {
    ExportSpec(Split(pattern, '.'))
  }

  /** Parsing is the inverse of joining: a non-empty list of segments free
      of `.`, joined with `.`, parses back to the same segments. */
  lemma {:induction false} ParsePatternJoin(path: seq<string>)
    requires |path| >= 1
    requires forall i :: 0 <= i < |path| ==> '.' !in path[i]
    ensures ParsePattern(Join(".", path)).path == path
  {
    SplitJoin(path, '.');
  }

  /** Follows `path` one table lookup at a time; `None` as soon as a step
      finds no table or no such key. */
  function Walk(v: Value, path: seq<string>): Option<Value>
  {
    if |path| == 0 then Some(v)
    else
      match Get(v, path[0])
      case None => None
      case Some(child) => Walk(child, path[1..])
  }

  /** Resolves `path` from `root`. On failure the error names the entire
      path, not the prefix up to the segment that failed; the empty path
      resolves to the root itself. */
  function GetPath(root: Value, path: seq<string>): (r: Result<Value, Error>)
    ensures r.Failure? ==> r.error == NoSuchKey(Join(".", path))
    ensures |path| == 0 ==> r == Success(root)
  {
    match Walk(root, path)
    case Some(v) => Success(v)
    case None => Failure(NoSuchKey(Join(".", path)))
  }

  /** Walking a concatenated path walks the first part, then the second. */
  lemma {:induction false} WalkAppend(v: Value, p: seq<string>, q: seq<string>)
    ensures Walk(v, p + q) == (match Walk(v, p)
                               case None => None
                               case Some(u) => Walk(u, q))
  {
    if |p| > 0 {
      assert (p + q)[0] == p[0];
      assert (p + q)[1..] == p[1..] + q;
      match Get(v, p[0])
      case None =>
      case Some(child) => WalkAppend(child, p[1..], q);
    } else {
      assert p + q == q;
    }
  }

  /** The `for` loop of `get_path`: one lookup per segment, returning the
      error with the joined full path at the first failed lookup. */
  method GetPathLoop(root: Value, path: seq<string>) returns (r: Result<Value, Error>)
    ensures r == GetPath(root, path)
  {
    var obj := root;
    for i := 0 to |path|
      invariant Walk(root, path[..i]) == Some(obj)
    {
      var next := Get(obj, path[i]);
      assert path[..i + 1] == path[..i] + [path[i]];
      assert path == path[..i + 1] + path[i + 1..];
      WalkAppend(root, path[..i], [path[i]]);
      if next.None? {
        WalkAppend(root, path[..i + 1], path[i + 1..]);
        return Failure(NoSuchKey(Join(".", path)));
      }
      obj := next.value;
    }
    assert path[..|path|] == path;
    return Success(obj);
  }

  /** `vs` lists the values visited when following `path` from `root`:
      each one is the previous one's entry under the next segment. */
  ghost predicate IsChain(root: Value, path: seq<string>, vs: seq<Value>)
  {
    && |vs| == |path| + 1
    && vs[0] == root
    && forall i :: 0 <= i < |path| ==> Get(vs[i], path[i]) == Some(vs[i + 1])
  }

  lemma {:induction false} ChainWalk(root: Value, path: seq<string>, vs: seq<Value>)
    requires IsChain(root, path, vs)
    ensures Walk(root, path) == Some(vs[|path|])
  {
    if |path| > 0 {
      assert IsChain(vs[1], path[1..], vs[1..]) by {
        forall i | 0 <= i < |path[1..]|
          ensures Get(vs[1..][i], path[1..][i]) == Some(vs[1..][i + 1])
        {
          assert Get(vs[i + 1], path[i + 1]) == Some(vs[i + 2]);
        }
      }
      ChainWalk(vs[1], path[1..], vs[1..]);
    }
  }

  lemma {:induction false} WalkChain(root: Value, path: seq<string>, v: Value)
    requires Walk(root, path) == Some(v)
    ensures exists vs :: IsChain(root, path, vs) && vs[|path|] == v
  {
    if |path| == 0 {
      assert IsChain(root, path, [root]);
    } else {
      var child := Get(root, path[0]).value;
      WalkChain(child, path[1..], v);
      var ws :| IsChain(child, path[1..], ws) && ws[|path| - 1] == v;
      var vs := [root] + ws;
      assert forall i :: 0 < i < |path| ==> path[i] == path[1..][i - 1];
      assert IsChain(root, path, vs);
    }
  }

  /** Resolution succeeds with `v` exactly when successive table lookups of
      the segments lead from `root` to `v`. */
  lemma GetPathSuccess(root: Value, path: seq<string>, v: Value)
    ensures GetPath(root, path) == Success(v)
        <==> exists vs :: IsChain(root, path, vs) && vs[|path|] == v
  {
    if GetPath(root, path) == Success(v) {
      WalkChain(root, path, v);
    }
    if exists vs :: IsChain(root, path, vs) && vs[|path|] == v {
      var vs :| IsChain(root, path, vs) && vs[|path|] == v;
      ChainWalk(root, path, vs);
    }
  }

  /** If lookups succeed up to segment `k` and the lookup of segment `k`
      fails (the value reached is no table, or lacks the key), resolution
      fails and reports the whole path. */
  lemma {:induction false} GetPathStuck(root: Value, path: seq<string>, k: nat, vs: seq<Value>)
    requires k < |path|
    requires IsChain(root, path[..k], vs)
    requires Get(vs[k], path[k]).None?
    ensures GetPath(root, path) == Failure(NoSuchKey(Join(".", path)))
  {
    ChainWalk(root, path[..k], vs);
    assert path == path[..k] + path[k..];
    WalkAppend(root, path[..k], path[k..]);
    assert path[k..][0] == path[k];
  }

  /** Conversely, every failure has a first segment whose lookup fails after
      the lookups before it succeeded. */
  lemma {:induction false} GetPathFailure(root: Value, path: seq<string>)
    requires GetPath(root, path).Failure?
    ensures exists k, vs :: 0 <= k < |path| && IsChain(root, path[..k], vs)
                            && Get(vs[k], path[k]).None?
  {
    assert |path| > 0;
    if Get(root, path[0]).None? {
      assert IsChain(root, path[..0], [root]);
    } else {
      var child := Get(root, path[0]).value;
      GetPathFailure(child, path[1..]);
      var k, ws :| 0 <= k < |path[1..]| && IsChain(child, path[1..][..k], ws)
                   && Get(ws[k], path[1..][k]).None?;
      var vs := [root] + ws;
      assert path[..k + 1][1..] == path[1..][..k];
      assert IsChain(root, path[..k + 1], vs) by {
        forall i | 0 <= i < k + 1
          ensures Get(vs[i], path[..k + 1][i]) == Some(vs[i + 1])
        {
          if i > 0 {
            assert path[..k + 1][i] == path[1..][..k][i - 1];
          }
        }
      }
      assert Get(vs[k + 1], path[k + 1]).None?;
    }
  }
}
