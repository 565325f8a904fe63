/** Path joining for document and collection references.

    `JoinPath(path, segments)` is `joinPath(path, ...segments)`: the segments are
    folded onto the base path from the left, each step gluing with one `/` and
    collapsing every run of two or more slashes to one; the folded string is
    collapsed once more and loses a single trailing slash.

    Strings are `seq<char>`; the two regular expressions of `joinPath` are the
    functions `Collapse` and `StripTrailingSlash`.
 */
module Paths {

  /** No two adjacent slashes anywhere in `s` (see `NoDoubleSlashAt` for the
      positional reading). */
  predicate NoDoubleSlash(s: string)
    decreases |s|
  {
    |s| < 2 || (!(s[0] == '/' && s[1] == '/') && NoDoubleSlash(s[1..]))
  }

  predicate StartsWithSlash(s: string) {
    |s| > 0 && s[0] == '/'
  }

  predicate EndsWithSlash(s: string) {
    |s| > 0 && s[|s| - 1] == '/'
  }

  /** The global regular-expression replacement of `joinPath`: every run of
      two or more slashes becomes a single slash, everything else is kept. */
  function Collapse(s: string): (r: string)
    ensures |s| > 0 ==> |r| > 0 && r[0] == s[0]
    decreases |s|
  {
    if |s| <= 1 then s
    else if s[0] == '/' && s[1] == '/' then Collapse(s[1..])
    else [s[0]] + Collapse(s[1..])
  }

  /** The end-anchored regular-expression replacement of `joinPath`: one slash
      at the very end is removed. On a collapsed string nothing ends in `/`
      after it. */
  function StripTrailingSlash(s: string): (r: string)
    ensures NoDoubleSlash(s) ==> NoDoubleSlash(r) && !EndsWithSlash(r)
    ensures |r| > 0 ==> |s| > 0 && r[0] == s[0]
  {
    if EndsWithSlash(s) then NoDoubleSlashDropLast(s); s[..|s| - 1] else s
  }

  /** One step of the fold: glue with `/` and collapse. */
  function Step(acc: string, segment: string): string {
    Collapse(acc + "/" + segment)
  }

  /** The left fold of `Step` over the segments, starting from `acc`. */
  function Reduce(acc: string, segments: seq<string>): string
    decreases |segments|
  {
    if segments == [] then acc else Reduce(Step(acc, segments[0]), segments[1..])
  }

  /** `joinPath(path, ...segments)`. The result never holds `//` and never ends in `/`. */
  function JoinPath(path: string, segments: seq<string>): (r: string)
    ensures NoDoubleSlash(r)
    ensures !EndsWithSlash(r)
  {
    var reduced := Reduce(path, segments);
    CollapseNoDoubleSlash(reduced);
    StripTrailingSlash(Collapse(reduced))
  }

  // ---------------------------------------------------------------------------
  // Reference definitions

  /** The non-empty `/`-separated components of `s`, left to right
      (splitting at every `/` and dropping the empty pieces). */
  function Components(s: string): (r: seq<string>)
    ensures |s| > 0 && s[0] != '/' ==> |r| > 0
    decreases |s|
  {
    if s == [] then []
    else if s[0] == '/' then Components(s[1..])
    else
      var rest := Components(s[1..]);
      if |s| == 1 || s[1] == '/' then [[s[0]]] + rest
      else [[s[0]] + rest[0]] + rest[1..]
  }

  /** The components of every segment, in order. */
  function SegmentComponents(segments: seq<string>): seq<string>
    decreases |segments|
  {
    if segments == [] then [] else Components(segments[0]) + SegmentComponents(segments[1..])
  }

  /** The parts glued with single slashes. */
  function JoinWithSlash(parts: seq<string>): string
    decreases |parts|
  {
    if |parts| == 0 then ""
    else if |parts| == 1 then parts[0]
    else parts[0] + "/" + JoinWithSlash(parts[1..])
  }

  /** The base path and segments glued with `/` and nothing collapsed. */
  function RawJoin(path: string, segments: seq<string>): string
    decreases |segments|
  {
    if segments == [] then path else RawJoin(path + "/" + segments[0], segments[1..])
  }

  /** Whether the joined path is rooted: the base path starts with `/`, or it is
      empty and a segment is glued onto it with a leading `/`. */
  predicate Rooted(path: string, segments: seq<string>) {
    StartsWithSlash(path) || (path == "" && segments != [])
  }

  /** What `joinPath` promises, stated without any collapsing: the components of
      the base path and then of every segment, glued with single slashes, with a
      leading slash when the glued string is rooted, and nothing at all when
      there are no components. */
  function ExpectedJoin(path: string, segments: seq<string>): string {
    var parts := Components(path) + SegmentComponents(segments);
    if parts == [] then "" else (if Rooted(path, segments) then "/" else "") + JoinWithSlash(parts)
  }

  // ---------------------------------------------------------------------------
  // Slash runs

  /** `NoDoubleSlash` read position by position. */
  lemma {:induction false} NoDoubleSlashAt(s: string)
    ensures NoDoubleSlash(s) <==> forall i :: 0 <= i < |s| - 1 ==> !(s[i] == '/' && s[i + 1] == '/')
    decreases |s|
  {
    if |s| >= 2 {
      NoDoubleSlashAt(s[1..]);
      var t := s[1..];
      assert forall i :: 0 <= i < |t| ==> t[i] == s[i + 1];
    }
  }

  /** Dropping the last character of a string free of `//` keeps it free of
      `//`, and what is left does not end in `/` when the dropped one was `/`. */
  lemma {:induction false} NoDoubleSlashDropLast(s: string)
    requires |s| > 0
    ensures NoDoubleSlash(s) ==> NoDoubleSlash(s[..|s| - 1])
    ensures NoDoubleSlash(s) && EndsWithSlash(s) ==> !EndsWithSlash(s[..|s| - 1])
    decreases |s|
  {
    if |s| > 2 {
      NoDoubleSlashDropLast(s[1..]);
      assert s[1..][..|s| - 2] == s[..|s| - 1][1..];
    }
  }

  // ---------------------------------------------------------------------------
  // Collapse

  /** `Collapse` leaves no `//` behind. */
  lemma {:induction false} CollapseNoDoubleSlash(s: string)
    ensures NoDoubleSlash(Collapse(s))
    decreases |s|
  {
    if |s| > 1 {
      CollapseNoDoubleSlash(s[1..]);
      if !(s[0] == '/' && s[1] == '/') {
        var c := Collapse(s[1..]);
        assert ([s[0]] + c)[1..] == c;
      }
    }
  }

  /** A string already free of `//` is left as it is by `Collapse`. */
  lemma {:induction false} CollapseNormalised(s: string)
    requires NoDoubleSlash(s)
    ensures Collapse(s) == s
    decreases |s|
  {
    if |s| > 1 {
      CollapseNormalised(s[1..]);
    }
  }

  /** Collapsing twice is collapsing once. */
  lemma CollapseIdempotent(s: string)
    ensures Collapse(Collapse(s)) == Collapse(s)
  {
    CollapseNoDoubleSlash(s);
    CollapseNormalised(Collapse(s));
  }

  /** Collapsing a prefix first changes nothing once the whole is collapsed. */
  lemma {:induction false} CollapsePrefix(a: string, b: string)
    ensures Collapse(Collapse(a) + b) == Collapse(a + b)
    decreases |a|
  {
    if |a| > 1 {
      CollapsePrefix(a[1..], b);
      if a[0] == '/' && a[1] == '/' {
        var ab := a + b;
        assert ab[0] == a[0] && ab[1] == a[1] && ab[1..] == a[1..] + b;
      } else {
        CollapseKeptHead(a, b);
      }
    }
  }

  /** The step of `CollapsePrefix` where the first character of `a` is kept. */
  lemma CollapseKeptHead(a: string, b: string)
    requires |a| > 1 && !(a[0] == '/' && a[1] == '/')
    requires Collapse(Collapse(a[1..]) + b) == Collapse(a[1..] + b)
    ensures Collapse(Collapse(a) + b) == Collapse(a + b)
  {
    var c := Collapse(a[1..]);
    CollapseUnfoldKept(a);
    AppendAssoc([a[0]], c, b);
    assert a == [a[0]] + a[1..];
    AppendAssoc([a[0]], a[1..], b);
    CollapseCons(a[0], c + b, a[1..] + b);
  }

  /** One unfolding of `Collapse` where the first character is kept. */
  lemma CollapseUnfoldKept(s: string)
    requires |s| > 1 && !(s[0] == '/' && s[1] == '/')
    ensures Collapse(s) == [s[0]] + Collapse(s[1..])
  {
  }

  /** `Collapse` of `[x] + t` depends on `t` only through its first character
      and its own collapse. */
  lemma CollapseCons(x: char, t: string, u: string)
    requires |t| > 0 && |u| > 0 && t[0] == u[0]
    requires Collapse(t) == Collapse(u)
    ensures Collapse([x] + t) == Collapse([x] + u)
  {
    assert ([x] + t)[1..] == t && ([x] + u)[1..] == u;
  }

  // ---------------------------------------------------------------------------
  // Components

  /** Gluing two strings with `/` concatenates their components. */
  lemma {:induction false} ComponentsGlue(a: string, b: string)
    ensures Components(a + "/" + b) == Components(a) + Components(b)
    decreases |a|
  {
    var s := a + "/" + b;
    if a == [] {
      assert s[1..] == b;
    } else {
      ComponentsGlue(a[1..], b);
      ComponentsGlueHead(a, b);
    }
  }

  /** The step of `ComponentsGlue` that peels the first character of `a`. */
  lemma ComponentsGlueHead(a: string, b: string)
    requires a != []
    requires Components(a[1..] + "/" + b) == Components(a[1..]) + Components(b)
    ensures Components(a + "/" + b) == Components(a) + Components(b)
  {
    var s := a + "/" + b;
    assert s[0] == a[0] && s[1..] == a[1..] + "/" + b;
    if a[0] != '/' {
      if |a| == 1 {
        assert s[1] == '/' && a[1..] == [];
      } else if a[1] == '/' {
        assert s[1] == '/';
      } else {
        assert s[1] == a[1];
        ExtendFirst([a[0]], Components(a[1..]), Components(b));
      }
    }
  }

  /** Extending the first part commutes with appending more parts. */
  lemma ExtendFirst<T>(c: seq<T>, parts: seq<seq<T>>, more: seq<seq<T>>)
    requires parts != []
    ensures [c + (parts + more)[0]] + (parts + more)[1..] == ([c + parts[0]] + parts[1..]) + more
  {
    assert (parts + more)[0] == parts[0];
    assert (parts + more)[1..] == parts[1..] + more;
  }

  /** Collapsing slash runs keeps the components. */
  lemma {:induction false} ComponentsCollapse(s: string)
    ensures Components(Collapse(s)) == Components(s)
    decreases |s|
  {
    if |s| > 1 {
      ComponentsCollapse(s[1..]);
      if !(s[0] == '/' && s[1] == '/') {
        assert s == [s[0]] + s[1..];
        ComponentsCons(s[0], Collapse(s[1..]), s[1..]);
      }
    }
  }

  /** `Components` of `[x] + t` depends on `t` only through its first character
      and its own components. */
  lemma ComponentsCons(x: char, t: string, u: string)
    requires |t| > 0 && |u| > 0 && t[0] == u[0]
    requires Components(t) == Components(u)
    ensures Components([x] + t) == Components([x] + u)
  {
    assert ([x] + t)[1..] == t && ([x] + u)[1..] == u;
  }

  /** Removing one trailing slash keeps the components. */
  lemma ComponentsStrip(s: string)
    ensures Components(StripTrailingSlash(s)) == Components(s)
  {
    if EndsWithSlash(s) {
      var t := s[..|s| - 1];
      assert t + "/" + "" == s;
      ComponentsGlue(t, "");
    }
  }

  // ---------------------------------------------------------------------------
  // The fold

  /** The components of the fold are those of the start and then of every segment. */
  lemma {:induction false} ComponentsReduce(acc: string, segments: seq<string>)
    ensures Components(Reduce(acc, segments)) == Components(acc) + SegmentComponents(segments)
    decreases |segments|
  {
    if segments != [] {
      var next := Step(acc, segments[0]);
      ComponentsReduce(next, segments[1..]);
      ComponentsCollapse(acc + "/" + segments[0]);
      ComponentsGlue(acc, segments[0]);
    }
  }

  /** The first character of the fold: a non-empty start keeps its own, an empty
      one gains the `/` of the first glue. */
  lemma {:induction false} ReduceFirst(acc: string, segments: seq<string>)
    requires segments != []
    ensures |Reduce(acc, segments)| > 0
    ensures Reduce(acc, segments)[0] == if acc == "" then '/' else acc[0]
    decreases |segments|
  {
    var next := Step(acc, segments[0]);
    assert (acc + "/" + segments[0])[0] == if acc == "" then '/' else acc[0];
    if segments[1..] != [] {
      ReduceFirst(next, segments[1..]);
    }
  }

  /** Collapsing after every step is the same as collapsing the raw join once. */
  lemma {:induction false} ReduceCollapse(acc: string, segments: seq<string>)
    ensures Collapse(Reduce(acc, segments)) == Collapse(RawJoin(acc, segments))
    decreases |segments|
  {
    if segments == [] {
    } else {
      var glued := acc + "/" + segments[0];
      ReduceCollapse(Collapse(glued), segments[1..]);
      RawJoinSuffix(Collapse(glued), segments[1..]);
      RawJoinSuffix(glued, segments[1..]);
      CollapsePrefix(glued, RawJoinTail(segments[1..]));
    }
  }

  /** What the raw join appends after its first argument. */
  function RawJoinTail(segments: seq<string>): string
    decreases |segments|
  {
    if segments == [] then "" else "/" + segments[0] + RawJoinTail(segments[1..])
  }

  /** The raw join is its first argument followed by `RawJoinTail`. */
  lemma {:induction false} RawJoinSuffix(acc: string, segments: seq<string>)
    ensures RawJoin(acc, segments) == acc + RawJoinTail(segments)
    decreases |segments|
  {
    if segments != [] {
      RawJoinSuffix(acc + "/" + segments[0], segments[1..]);
      assert acc + "/" + segments[0] + RawJoinTail(segments[1..])
          == acc + ("/" + segments[0] + RawJoinTail(segments[1..]));
    }
  }

  // ---------------------------------------------------------------------------
  // The properties of joinPath

  /** `joinPath` equals one collapse of the whole `/`-joined string followed by
      removal of one trailing slash. */
  lemma JoinPathCollapseOnce(path: string, segments: seq<string>)
    ensures JoinPath(path, segments) == StripTrailingSlash(Collapse(RawJoin(path, segments)))
  {
    ReduceCollapse(path, segments);
    CollapseIdempotent(Reduce(path, segments));
  }

  /** Only separators are normalised: the non-empty components of the result are
      those of the base path and then of every segment, in order. */
  lemma JoinPathComponents(path: string, segments: seq<string>)
    ensures Components(JoinPath(path, segments)) == Components(path) + SegmentComponents(segments)
  {
    var reduced := Reduce(path, segments);
    ComponentsStrip(Collapse(reduced));
    ComponentsCollapse(reduced);
    ComponentsReduce(path, segments);
  }

  /** A string free of `//` and of a trailing slash is its components glued with
      slashes, behind a leading slash when it has one. */
  lemma Reconstruct(s: string)
    requires NoDoubleSlash(s) && !EndsWithSlash(s)
    ensures s == (if StartsWithSlash(s) then "/" else "") + JoinWithSlash(Components(s))
  {
    if StartsWithSlash(s) {
      var t := s[1..];
      assert |t| > 0 && t[0] == s[1] && t[|t| - 1] == s[|s| - 1];
      ReconstructUnrooted(t);
    } else {
      ReconstructUnrooted(s);
    }
  }

  lemma {:induction false} ReconstructUnrooted(s: string)
    requires NoDoubleSlash(s) && !StartsWithSlash(s) && !EndsWithSlash(s)
    ensures s == JoinWithSlash(Components(s))
    decreases |s|
  {
    if |s| > 1 {
      var t := s[1..];
      if t[0] == '/' {
        var u := t[1..];
        assert |u| > 0 && u[0] == s[2] && u[|u| - 1] == s[|s| - 1];
        ReconstructUnrooted(u);
        assert s == [s[0]] + "/" + u;
      } else {
        ReconstructUnrooted(t);
        var rest := Components(t);
        JoinWithSlashPrepend(s[0], rest);
        assert s == [s[0]] + t;
      }
    }
  }

  /** Prepending a character to the first part prepends it to the join. */
  lemma JoinWithSlashPrepend(c: char, parts: seq<string>)
    requires |parts| > 0
    ensures JoinWithSlash([[c] + parts[0]] + parts[1..]) == [c] + JoinWithSlash(parts)
  {
    var q := [[c] + parts[0]] + parts[1..];
    assert |q| == |parts| && q[0] == [c] + parts[0] && q[1..] == parts[1..];
    if |parts| > 1 {
      JoinWithSlashUnfold(q);
      JoinWithSlashUnfold(parts);
      AppendAssoc([c], parts[0], "/" + JoinWithSlash(parts[1..]));
    }
  }

  /** One unfolding of `JoinWithSlash` on two or more parts. */
  lemma JoinWithSlashUnfold(parts: seq<string>)
    requires |parts| > 1
    ensures JoinWithSlash(parts) == parts[0] + ("/" + JoinWithSlash(parts[1..]))
  {
  }

  /** Concatenation is associative (stated once so that proofs need not rediscover it). */
  lemma AppendAssoc<T>(a: seq<T>, b: seq<T>, c: seq<T>)
    ensures (a + b) + c == a + (b + c)
  {
  }

  /** The full behaviour of `joinPath`: it is `ExpectedJoin`. */
  lemma JoinPathCharacterised(path: string, segments: seq<string>)
    ensures JoinPath(path, segments) == ExpectedJoin(path, segments)
  {
    var r := JoinPath(path, segments);
    var parts := Components(path) + SegmentComponents(segments);
    JoinPathComponents(path, segments);
    Reconstruct(r);
    if parts != [] {
      assert |r| > 0;
      var reduced := Reduce(path, segments);
      assert r[0] == reduced[0];
      if segments != [] {
        ReduceFirst(path, segments);
      }
    }
  }

  /** A non-empty result starts with `/` exactly when the join is rooted. */
  lemma JoinPathRooted(path: string, segments: seq<string>)
    ensures StartsWithSlash(JoinPath(path, segments))
        <==> Rooted(path, segments) && Components(path) + SegmentComponents(segments) != []
  {
    JoinPathCharacterised(path, segments);
  }

  // ---------------------------------------------------------------------------
  // Examples from the documentation comment and the unit test

  /** The example of the documentation comment. */
  lemma JoinPathExampleDoc()
    ensures JoinPath("a", ["b", "c"]) == "a/b/c"
  {
    JoinPathCharacterised("a", ["b", "c"]);
    ExpectedExampleDoc();
  }

  /** The reference join of the documentation example. */
  lemma ExpectedExampleDoc()
    ensures ExpectedJoin("a", ["b", "c"]) == "a/b/c"
  {
    assert ["b", "c"][1..] == ["c"];
    assert Components("a") + SegmentComponents(["b", "c"]) == ["a", "b", "c"];
    JoinWithSlashThree("a", "b", "c");
  }

  /** Slashes at either end of every piece are absorbed. */
  lemma JoinPathExampleSlashes()
    ensures JoinPath("a/", ["/b/", "/c/"]) == "a/b/c"
  {
    JoinPathCharacterised("a/", ["/b/", "/c/"]);
    ExpectedExampleSlashes();
  }

  /** The reference join of the unit test's slash example. */
  lemma ExpectedExampleSlashes()
    ensures ExpectedJoin("a/", ["/b/", "/c/"]) == "a/b/c"
  {
    ComponentsTrailing('a');
    ComponentsEnclosed('b');
    ComponentsEnclosed('c');
    assert ["/b/", "/c/"][1..] == ["/c/"];
    assert Components("a/") + SegmentComponents(["/b/", "/c/"]) == ["a", "b", "c"];
    JoinWithSlashThree("a", "b", "c");
  }

  /** Three parts glued with slashes. */
  lemma JoinWithSlashThree(x: string, y: string, z: string)
    ensures JoinWithSlash([x, y, z]) == x + "/" + y + "/" + z
  {
    assert [x, y, z][1..] == [y, z];
    assert [y, z][1..] == [z];
    assert JoinWithSlash([y, z]) == y + "/" + z;
    assert x + "/" + (y + "/" + z) == x + "/" + y + "/" + z;
  }

  /** The components of one character followed by a slash. */
  lemma ComponentsTrailing(c: char)
    requires c != '/'
    ensures Components([c, '/']) == [[c]]
  {
    assert [c, '/'][1..] == "/";
    assert "/"[1..] == [];
    assert Components("/") == [];
  }

  /** The components of one character between two slashes. */
  lemma ComponentsEnclosed(c: char)
    requires c != '/'
    ensures Components(['/', c, '/']) == [[c]]
  {
    assert ['/', c, '/'][1..] == [c, '/'];
    ComponentsTrailing(c);
  }

  lemma JoinPathExampleSingle()
    ensures JoinPath("a", []) == "a"
    ensures JoinPath("", []) == ""
    ensures JoinPath("/", []) == ""
  {
  }

  /** An empty base path followed by a segment gains a leading slash. */
  lemma JoinPathExampleEmptyBase()
    ensures JoinPath("", ["a"]) == "/a"
  {
    assert "" + "/" + "a" == "/a";
    CollapseNormalised("/a");
  }
}
