/** Path normalization and resolution of the virtual filesystem. */
module Paths {

  /** `str::split('/')`. */
  function Split(path: string): (segments: seq<string>)
    ensures 1 <= |segments|
  {
    if path == "" then [""]
    else if path[0] == '/' then [""] + Split(path[1..])
    else
      var rest := Split(path[1..]);
      [[path[0]] + rest[0]] + rest[1..]
  }

  /** One segment applied to the stack of kept segments. */
  function Apply(stack: seq<string>, segment: string): seq<string> {
    if segment == "" || segment == "." then stack
    else if segment == ".." then (if stack == [] then [] else stack[..|stack| - 1])
    else stack + [segment]
  }

  function Fold(stack: seq<string>, segments: seq<string>): seq<string>
    decreases |segments|
  {
    if segments == [] then stack else Fold(Apply(stack, segments[0]), segments[1..])
  }

  /** Every segment behind a slash. */
  function Joined(stack: seq<string>): string {
    if stack == [] then "" else Joined(stack[..|stack| - 1]) + "/" + stack[|stack| - 1]
  }

  function Render(stack: seq<string>): string {
    if stack == [] then "/" else Joined(stack)
  }

  function Segments(path: string): seq<string> {
    Fold([], Split(path))
  }

  function Normal(path: string): string {
    Render(Segments(path))
  }

  /** `resolve_path`. */
  function Resolve(directory: string, path: string): string {
    if path != "" && path[0] == '/' then Normal(path) else Normal(directory + "/" + path)
  }

  /** `normalize_path`: a loop over the segments and a loop that builds the string. */
  method NormalizePath(path: string) returns (normalized: string)
    ensures normalized == Normal(path)
  {
    var parts, stack := Split(path), [];
    for index := 0 to |parts|
      invariant Fold(stack, parts[index..]) == Segments(path)
    {
      assert parts[index..][1..] == parts[index + 1..];
      var segment := parts[index];
      if segment == "" || segment == "." {
        continue;
      }
      if segment == ".." {
        if stack != [] {
          stack := stack[..|stack| - 1];
        }
        continue;
      }
      stack := stack + [segment];
    }
    normalized := "";
    for index := 0 to |stack|
      invariant normalized == Joined(stack[..index])
    {
      normalized := normalized + "/" + stack[index];
      assert stack[..index + 1][..index] == stack[..index];
    }
    assert stack[..|stack|] == stack;
    if normalized == "" {
      JoinedEmpty(stack);
      normalized := "/";
    }
  }

  lemma JoinedEmpty(stack: seq<string>)
    ensures Joined(stack) == "" <==> stack == []
  {
  }

  // ---------------------------------------------------------------- canonical paths

  predicate Plain(segment: string) {
    segment != "" && segment != "." && segment != ".." && '/' !in segment
  }

  predicate AllPlain(stack: seq<string>) {
    forall i :: 0 <= i < |stack| ==> Plain(stack[i])
  }

  /** An absolute path without empty, `.` or `..` segments and without a trailing slash. */
  predicate CanonicalPath(path: string) {
    path == "/" || (path != "" && path[0] == '/' && AllPlain(Split(path)[1..]))
  }

  lemma {:induction false} SplitHasNoSlash(path: string, i: nat)
    requires i < |Split(path)|
    ensures '/' !in Split(path)[i]
  {
    if path != "" {
      var rest := Split(path[1..]);
      if path[0] == '/' {
        if i > 0 {
          SplitHasNoSlash(path[1..], i - 1);
        }
      } else {
        SplitHasNoSlash(path[1..], i);
      }
    }
  }

  lemma {:induction false} SplitJoins(a: string, b: string)
    ensures Split(a + "/" + b) == Split(a) + Split(b)
  {
    var whole := a + "/" + b;
    if a == "" {
      assert whole[1..] == b;
    } else {
      assert whole[1..] == a[1..] + "/" + b;
      SplitJoins(a[1..], b);
    }
  }

  lemma {:induction false} SplitPlain(segment: string)
    requires '/' !in segment
    ensures Split(segment) == [segment]
  {
    if segment != "" {
      assert segment[0] in segment;
      SplitPlain(segment[1..]);
      assert segment == [segment[0]] + segment[1..];
    }
  }

  lemma {:induction false} SplitJoined(stack: seq<string>)
    requires AllPlain(stack)
    ensures Split(Joined(stack)) == [""] + stack
  {
    if stack != [] {
      var init, last := stack[..|stack| - 1], stack[|stack| - 1];
      SplitJoined(init);
      SplitPlain(last);
      SplitJoins(Joined(init), last);
      assert stack == init + [last];
    }
  }

  lemma {:induction false} FoldJoins(stack: seq<string>, a: seq<string>, b: seq<string>)
    ensures Fold(stack, a + b) == Fold(Fold(stack, a), b)
    decreases |a|
  {
    if a == [] {
      assert a + b == b;
    } else {
      assert (a + b)[1..] == a[1..] + b;
      FoldJoins(Apply(stack, a[0]), a[1..], b);
    }
  }

  lemma {:induction false} FoldPlain(stack: seq<string>, segments: seq<string>)
    requires AllPlain(segments)
    ensures Fold(stack, segments) == stack + segments
    decreases |segments|
  {
    if segments != [] {
      FoldPlain(stack + [segments[0]], segments[1..]);
      assert stack + [segments[0]] + segments[1..] == stack + segments;
    }
  }

  lemma {:induction false} FoldKeepsPlain(stack: seq<string>, segments: seq<string>)
    requires AllPlain(stack) && forall i :: 0 <= i < |segments| ==> '/' !in segments[i]
    ensures AllPlain(Fold(stack, segments))
    decreases |segments|
  {
    if segments != [] {
      FoldKeepsPlain(Apply(stack, segments[0]), segments[1..]);
    }
  }

  lemma SegmentsPlain(path: string)
    ensures AllPlain(Segments(path))
  {
    forall i | 0 <= i < |Split(path)| ensures '/' !in Split(path)[i] {
      SplitHasNoSlash(path, i);
    }
    FoldKeepsPlain([], Split(path));
  }

  /** Reading a rendered stack gives the stack back. */
  lemma SegmentsOfRender(stack: seq<string>)
    requires AllPlain(stack)
    ensures Segments(Render(stack)) == stack
  {
    if stack == [] {
      assert Split("/") == ["", ""];
    } else {
      SplitJoined(stack);
      FoldJoins([], [""], stack);
      FoldPlain([], stack);
    }
  }

  /** Normalization keeps the meaning, is idempotent, and yields canonical paths. */
  lemma NormalIdempotent(path: string)
    ensures Segments(Normal(path)) == Segments(path)
    ensures Normal(Normal(path)) == Normal(path)
  {
    SegmentsPlain(path);
    SegmentsOfRender(Segments(path));
  }

  /** The canonical paths are exactly the ones normalization leaves alone. */
  lemma NormalFixedPoints(path: string)
    ensures CanonicalPath(Normal(path))
    ensures Normal(path) == path <==> CanonicalPath(path)
  {
    SegmentsPlain(path);
    RenderCanonical(Segments(path));
    if CanonicalPath(path) && path != "/" {
      var stack := Split(path)[1..];
      assert Split(path) == [""] + stack;
      FoldJoins([], [""], stack);
      FoldPlain([], stack);
      SplitInjective(path, Joined(stack), stack);
      assert stack != [] && Segments(path) == [] + stack == stack;
    }
    if path == "/" {
      assert Split("/") == ["", ""];
    }
  }

  lemma RenderCanonical(stack: seq<string>)
    requires AllPlain(stack)
    ensures CanonicalPath(Render(stack))
  {
    if stack != [] {
      SplitJoined(stack);
      JoinedAbsolute(stack);
    }
  }

  lemma {:induction false} JoinedAbsolute(stack: seq<string>)
    requires stack != []
    ensures Joined(stack) != "" && Joined(stack)[0] == '/'
  {
    if |stack| > 1 {
      JoinedAbsolute(stack[..|stack| - 1]);
    } else {
      assert Joined(stack[..0]) == "";
    }
  }

  /** Text with the segments between slashes. */
  function Unsplit(segments: seq<string>): string
    requires segments != []
  {
    if |segments| == 1 then segments[0] else segments[0] + "/" + Unsplit(segments[1..])
  }

  lemma {:induction false} UnsplitSplit(path: string)
    ensures Unsplit(Split(path)) == path
  {
    if path != "" {
      var rest := Split(path[1..]);
      UnsplitSplit(path[1..]);
      if path[0] == '/' {
        assert ([""] + rest)[1..] == rest;
        assert path == "/" + path[1..];
      } else {
        UnsplitHead(path[0], rest);
        assert path == [path[0]] + path[1..];
      }
    }
  }

  lemma UnsplitHead(c: char, segments: seq<string>)
    requires segments != []
    ensures Unsplit([[c] + segments[0]] + segments[1..]) == [c] + Unsplit(segments)
  {
    var grown := [[c] + segments[0]] + segments[1..];
    if |segments| > 1 {
      assert grown[1..] == segments[1..];
    }
  }

  lemma SplitInjective(a: string, b: string, stack: seq<string>)
    requires AllPlain(stack) && Split(a) == [""] + stack && b == Joined(stack)
    ensures a == b
  {
    SplitJoined(stack);
    UnsplitSplit(a);
    UnsplitSplit(b);
  }

  // ---------------------------------------------------------------- resolution

  lemma SegmentsOfPair(directory: string, path: string)
    ensures Segments(directory + "/" + path) == Fold(Segments(directory), Split(path))
  {
    SplitJoins(directory, path);
    FoldJoins([], Split(directory), Split(path));
  }

  /** Resolving against a normalized directory is resolving against the raw one. */
  lemma ResolveNormalized(directory: string, path: string)
    ensures Resolve(Normal(directory), path) == Resolve(directory, path)
  {
    NormalIdempotent(directory);
    SegmentsOfPair(directory, path);
    SegmentsOfPair(Normal(directory), path);
  }

  // ---------------------------------------------------------------- what each kind of segment does

  lemma RenderMore(stack: seq<string>, segment: string)
    requires AllPlain(stack) && Plain(segment)
    ensures Render(stack + [segment]) == if Render(stack) == "/" then "/" + segment else Render(stack) + "/" + segment
  {
    var more := stack + [segment];
    assert more[..|more| - 1] == stack;
    assert Joined(more) == Joined(stack) + "/" + segment;
    RenderRoot(stack);
  }

  lemma RenderRoot(stack: seq<string>)
    requires AllPlain(stack)
    ensures Render(stack) == "/" <==> stack == []
  {
    if stack != [] {
      assert Plain(stack[|stack| - 1]);
    }
  }

  lemma SegmentsOfOne(path: string, segment: string)
    requires '/' !in segment
    ensures Segments(path + "/" + segment) == Apply(Segments(path), segment)
  {
    SegmentsOfPair(path, segment);
    SplitPlain(segment);
    assert Fold(Apply(Segments(path), segment), [segment][1..]) == Apply(Segments(path), segment);
  }

  /** A plain segment is appended, behind a slash. */
  lemma NormalSegment(path: string, segment: string)
    requires Plain(segment)
    ensures Normal(path + "/" + segment) == if Normal(path) == "/" then "/" + segment else Normal(path) + "/" + segment
  {
    SegmentsPlain(path);
    SegmentsOfOne(path, segment);
    RenderMore(Segments(path), segment);
  }

  /** Empty segments and `.` change nothing. */
  lemma NormalDot(path: string)
    ensures Normal(path + "/.") == Normal(path) && Normal(path + "/") == Normal(path)
  {
    SegmentsOfOne(path, ".");
    SegmentsOfOne(path, "");
    assert path + "/" + "." == path + "/." && path + "/" + "" == path + "/";
  }

  /** `..` takes back the plain segment before it, */
  lemma NormalUndoes(path: string, segment: string)
    requires Plain(segment)
    ensures Normal(path + "/" + segment + "/..") == Normal(path)
  {
    SegmentsPlain(path);
    SegmentsOfOne(path, segment);
    SegmentsOfOne(path + "/" + segment, "..");
    assert path + "/" + segment + "/" + ".." == path + "/" + segment + "/..";
  }

  /** and stays at the root. */
  lemma NormalAtRoot(path: string)
    requires Normal(path) == "/"
    ensures Normal(path + "/..") == "/"
  {
    SegmentsPlain(path);
    RenderRoot(Segments(path));
    SegmentsOfOne(path, "..");
    assert path + "/" + ".." == path + "/..";
  }

  /** The empty path and the slash are the root. */
  lemma NormalRoot()
    ensures Normal("") == "/" && Normal("/") == "/"
  {
    assert Split("/") == ["", ""] && Split("") == [""];
  }

  /** A path without a leading slash counts from the root. */
  lemma NormalFromRoot(path: string)
    ensures Normal("/" + path) == Normal(path)
  {
    SplitJoins("", path);
    assert "" + "/" + path == "/" + path;
    FoldJoins([], [""], Split(path));
  }

  /** Every path ends in one last segment. */
  lemma {:induction false} PathEnds(path: string) returns (front: string, last: string)
    ensures '/' !in last
    ensures path == last || path == front + "/" + last
    ensures path == last || |front| < |path|
    decreases |path|
  {
    if path == "" {
      front, last := "", "";
    } else if path[|path| - 1] == '/' {
      front, last := path[..|path| - 1], "";
      assert path == front + "/";
    } else {
      var init := path[..|path| - 1];
      assert path == init + [path[|path| - 1]];
      front, last := PathEnds(init);
      last := last + [path[|path| - 1]];
    }
  }

  predicate Relative(path: string) {
    path == "" || path[0] != '/'
  }

  /** Two relative resolutions in a row are one normalization of the joined path. */
  lemma ResolveChains(directory: string, p: string, q: string)
    requires Relative(p) && Relative(q)
    ensures Resolve(Resolve(directory, p), q) == Normal(directory + "/" + p + "/" + q)
  {
    ResolveNormalized(directory + "/" + p, q);
  }
}
