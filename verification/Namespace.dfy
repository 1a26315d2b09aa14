/** The virtual filesystem namespace: nodes by canonical path, parents created on demand, and
    directory listings rebuilt after every mount. */
module Namespace {
  import opened Machine
  import opened Paths
  import opened PathOrder

  datatype FileType = Regular | DirectoryType | Device

  datatype Metadata = Metadata(fileType: FileType, size: nat, writable: bool)

  datatype Entry = Entry(name: string, metadata: Metadata)

  /** A directory with its stored listing, or any other node. */
  datatype Node = Directory(entries: seq<Entry>) | Leaf(size: nat, writable: bool, device: bool)

  type Nodes = map<string, Node>

  function MetadataOf(node: Node): Metadata {
    match node
    case Directory(entries) => Metadata(DirectoryType, |entries|, false)
    case Leaf(size, writable, device) => Metadata(if device then Device else Regular, size, writable)
  }

  /** Directories and devices are told apart from files, only files and devices can be writable, and
      the size is that of the file or the number of entries. */
  lemma MetadataExact(node: Node)
    ensures var metadata := MetadataOf(node);
            && (metadata.fileType == DirectoryType <==> node.Directory?)
            && (metadata.fileType == Device <==> node.Leaf? && node.device)
            && (metadata.writable <==> node.Leaf? && node.writable)
            && (node.Directory? ==> metadata.size == |node.entries|) && (node.Leaf? ==> metadata.size == node.size)
  {
  }

  // ---------------------------------------------------------------- parents and children as text

  /** Position after the last slash, 0 when there is none. */
  function AfterLastSlash(path: string): (r: nat)
    ensures r <= |path|
    decreases |path|
  {
    if path == "" then 0
    else if path[|path| - 1] == '/' then |path|
    else AfterLastSlash(path[..|path| - 1])
  }

  /** `current_path_parent`. */
  function ParentPath(path: string): string {
    var cut := AfterLastSlash(path);
    if path == "/" || cut <= 1 then "/" else path[..cut - 1]
  }

  /** A non-empty single segment after `prefix`. */
  function StripChild(prefix: string, full: string): Option<string> {
    if !(prefix <= full) then None
    else
      var remainder := full[|prefix|..];
      if remainder == "" || '/' in remainder then None else Some(remainder)
  }

  /** `direct_child_name`. */
  function DirectChild(directory: string, path: string): Option<string> {
    var dir := Normal(directory);
    StripChild(if dir == "/" then "/" else dir + "/", Normal(path))
  }

  lemma {:induction false} LastSlashBefore(front: string, last: string)
    requires '/' !in last
    ensures AfterLastSlash(front + "/" + last) == |front| + 1
    decreases |last|
  {
    var whole := front + "/" + last;
    if last != "" {
      assert whole[|whole| - 1] == last[|last| - 1] && last[|last| - 1] in last;
      assert whole[..|whole| - 1] == front + "/" + last[..|last| - 1];
      LastSlashBefore(front, last[..|last| - 1]);
    }
  }

  /** The parent of a rendered stack is the stack without its last segment. */
  lemma ParentOfRender(stack: seq<string>)
    requires AllPlain(stack)
    ensures ParentPath(Render(stack)) == Render(if stack == [] then [] else stack[..|stack| - 1])
  {
    if stack != [] {
      var init, last := stack[..|stack| - 1], stack[|stack| - 1];
      LastSlashBefore(Joined(init), last);
      JoinedEmpty(init);
      assert Joined(stack) == Joined(init) + "/" + last;
    }
  }

  /** `..` leads to the parent, on every path. */
  lemma NormalParent(path: string)
    ensures Normal(path + "/..") == ParentPath(Normal(path))
  {
    var stack := Segments(path);
    SegmentsPlain(path);
    ParentOfRender(stack);
    SegmentsOfOne(path, "..");
    assert path + "/" + ".." == path + "/..";
  }

  /** What a normal form has to satisfy, segment by segment. */
  ghost predicate NormalLaws(form: string -> string) {
    form("") == "/" && forall path: string, segment: string :: SegmentLaws(form, path, segment)
  }

  ghost predicate SegmentLaws(form: string -> string, path: string, segment: string) {
    && form("/" + path) == form(path) && form(path + "/") == form(path) && form(path + "/.") == form(path)
    && form(path + "/..") == ParentPath(form(path))
    && (Plain(segment) ==>
          form(path + "/" + segment) == if form(path) == "/" then "/" + segment else form(path) + "/" + segment)
  }

  lemma NormalIsLawful()
    ensures NormalLaws(Normal)
  {
    NormalRoot();
    forall path: string, segment: string ensures SegmentLaws(Normal, path, segment) {
      NormalFromRoot(path);
      NormalDot(path);
      NormalParent(path);
      if Plain(segment) {
        NormalSegment(path, segment);
      }
    }
  }

  /** The laws leave no choice: whatever obeys them is the normal form. */
  lemma {:induction false} NormalIsUnique(form: string -> string, path: string)
    requires NormalLaws(form)
    ensures form(path) == Normal(path)
    decreases |path|
  {
    hide Normal, ParentPath;
    NormalIsLawful();
    var front, last := PathEnds(path);
    if path == last {
      assert SegmentLaws(form, path, "") && SegmentLaws(Normal, path, "");
      SameLast(form, "", last);
      assert "" + "/" + last == "/" + path;
    } else {
      NormalIsUnique(form, front);
      SameLast(form, front, last);
    }
  }

  lemma SameLast(form: string -> string, front: string, last: string)
    requires SegmentLaws(form, front, last) && SegmentLaws(Normal, front, last) && '/' !in last && form(front) == Normal(front)
    ensures form(front + "/" + last) == Normal(front + "/" + last)
  {
    hide Normal, ParentPath;
    if last == "" {
      assert front + "/" + last == front + "/";
    } else if last == "." {
      assert front + "/" + last == front + "/.";
    } else if last == ".." {
      assert front + "/" + last == front + "/..";
    } else {
      assert Plain(last);
    }
  }

  /** So does resolving it against a directory. */
  lemma ResolveParent(directory: string)
    ensures Resolve(directory, "..") == ParentPath(Normal(directory))
  {
    NormalParent(directory);
    assert directory + "/" + ".." == directory + "/..";
  }

  lemma RenderNormal(stack: seq<string>)
    requires AllPlain(stack)
    ensures Normal(Render(stack)) == Render(stack)
  {
    SegmentsOfRender(stack);
  }

  lemma ChildPrefix(ds: seq<string>)
    requires AllPlain(ds)
    ensures (if Render(ds) == "/" then "/" else Render(ds) + "/") == Joined(ds) + "/"
  {
    if ds != [] {
      assert Plain(ds[|ds| - 1]);
      assert |Joined(ds)| >= 2;
    }
  }

  /** The textual child test finds exactly the paths one segment below the directory. */
  lemma DirectChildExact(ds: seq<string>, ps: seq<string>)
    requires AllPlain(ds) && AllPlain(ps)
    ensures DirectChild(Render(ds), Render(ps))
         == if ps != [] && ps[..|ps| - 1] == ds then Some(ps[|ps| - 1]) else None
  {
    RenderNormal(ds);
    RenderNormal(ps);
    ChildPrefix(ds);
    StripExact(ds, ps);
  }

  /** The last segment of a path directly below the directory. */
  function ChildName(directory: string, path: string): Option<string> {
    var ds, ps := Segments(directory), Segments(path);
    if ps != [] && ps[..|ps| - 1] == ds then Some(ps[|ps| - 1]) else None
  }

  /** On every pair of paths the textual test is the one on segments. */
  lemma DirectChildIs(directory: string, path: string)
    ensures DirectChild(directory, path) == ChildName(directory, path)
  {
    var ds, ps := Segments(directory), Segments(path);
    SegmentsPlain(directory);
    SegmentsPlain(path);
    NormalIdempotent(directory);
    NormalIdempotent(path);
    assert DirectChild(directory, path) == DirectChild(Render(ds), Render(ps));
    DirectChildExact(ds, ps);
  }

  /** For canonical paths a child is a path whose parent is the directory. */
  lemma ChildHasParent(directory: string, path: string)
    requires CanonicalPath(directory) && CanonicalPath(path)
    ensures ChildName(directory, path).Some? <==> path != "/" && ParentPath(path) == directory
    ensures ChildName(directory, path).Some? ==> ChildName(directory, path).value == path[AfterLastSlash(path)..]
  {
    var ds, ps := Segments(directory), Segments(path);
    SegmentsPlain(directory);
    SegmentsPlain(path);
    NormalFixedPoints(directory);
    NormalFixedPoints(path);
    assert Render(ds) == directory && Render(ps) == path;
    ParentOfRender(ps);
    if ps != [] {
      var init, last := ps[..|ps| - 1], ps[|ps| - 1];
      assert Plain(last);
      assert Joined(ps) == Joined(init) + "/" + last;
      LastSlashBefore(Joined(init), last);
      assert path[|Joined(init)| + 1..] == last;
      SegmentsOfRender(init);
      SegmentsOfRender(ds);
    }
  }

  lemma StripExact(ds: seq<string>, ps: seq<string>)
    requires AllPlain(ds) && AllPlain(ps)
    ensures StripChild(Joined(ds) + "/", Render(ps))
         == if ps != [] && ps[..|ps| - 1] == ds then Some(ps[|ps| - 1]) else None
  {
    var prefix, full := Joined(ds) + "/", Render(ps);
    if ps != [] && ps[..|ps| - 1] == ds {
      var last := ps[|ps| - 1];
      assert Plain(last);
      assert full == prefix + last;
      assert full[|prefix|..] == last;
    } else if StripChild(prefix, full).Some? {
      var remainder := full[|prefix|..];
      assert full == prefix + remainder;
      ChildSegments(ds, ps, remainder);
      assert false;
    }
  }

  lemma ChildSegments(ds: seq<string>, ps: seq<string>, remainder: string)
    requires AllPlain(ds) && AllPlain(ps) && remainder != "" && '/' !in remainder
    requires Render(ps) == Joined(ds) + "/" + remainder
    ensures ps != [] && ps[..|ps| - 1] == ds && ps[|ps| - 1] == remainder
  {
    SplitJoins(Joined(ds), remainder);
    SplitJoined(ds);
    SplitPlain(remainder);
    assert |Joined(ds) + "/" + remainder| >= 2;
    if ps != [] {
      SplitJoined(ps);
      assert ([""] + ps)[1..] == ps;
      assert ([""] + ds + [remainder])[1..] == ds + [remainder];
    }
  }

  // ---------------------------------------------------------------- well-formed namespaces

  /** Keys are canonical and closed under parent. */
  ghost predicate KeysOk(keys: set<string>) {
    forall key :: key in keys ==> CanonicalPath(key) && ParentPath(key) in keys
  }

  /** Every proper prefix of a path, the root first. */
  ghost function Ancestors(stack: seq<string>): set<string> {
    set i | 0 <= i < |stack| :: Render(stack[..i])
  }

  lemma AncestorsClosed(keys: set<string>, stack: seq<string>)
    requires KeysOk(keys) && AllPlain(stack)
    ensures KeysOk(keys + Ancestors(stack) + {Render(stack)})
  {
    var all := keys + Ancestors(stack) + {Render(stack)};
    forall key | key in all ensures CanonicalPath(key) && ParentPath(key) in all {
      if key !in keys {
        var i: nat :| i <= |stack| && key == Render(stack[..i]) by {
          if key == Render(stack) {
            assert stack[..|stack|] == stack;
          }
        }
        PrefixClosed(stack, i);
      }
    }
  }

  lemma PrefixClosed(stack: seq<string>, i: nat)
    requires AllPlain(stack) && i <= |stack|
    ensures CanonicalPath(Render(stack[..i]))
    ensures ParentPath(Render(stack[..i])) in Ancestors(stack) + {Render(stack)}
  {
    var prefix := stack[..i];
    RenderCanonical(prefix);
    ParentOfRender(prefix);
    if i > 0 {
      assert prefix[..i - 1] == stack[..i - 1];
      assert Render(stack[..i - 1]) in Ancestors(stack);
    } else if stack != [] {
      assert Render(stack[..0]) in Ancestors(stack);
    } else {
      assert prefix == stack;
    }
  }

  lemma KeysCanonical(keys: set<string>)
    requires KeysOk(keys)
    ensures AllCanonical(keys)
  {
  }

  /** Old nodes are as they were, new ones are empty directories. */
  ghost predicate OnlyEmptyAdded(before: Nodes, after: Nodes) {
    && before.Keys <= after.Keys
    && forall key :: key in after ==> after[key] == if key in before then before[key] else Directory([])
  }

  lemma NothingAdded(nodes: Nodes)
    ensures OnlyEmptyAdded(nodes, nodes)
  {
  }

  /** The nodes after a mount, before any listing is rebuilt: missing parents are empty directories. */
  ghost function Unlisted(nodes: Nodes, stack: seq<string>, node: Node): Nodes {
    (map key | key in nodes.Keys + Ancestors(stack) :: if key in nodes then nodes[key] else Directory([]))[Render(stack) := node]
  }

  /** The entry describes the node at a direct child of the directory. Sizes of directories may
      be stale; everything else is current. */
  ghost predicate Describes(nodes: Nodes, directory: string, entry: Entry, path: string) {
    && path in nodes && ChildName(directory, path) == Some(entry.name)
    && entry.metadata.fileType == MetadataOf(nodes[path]).fileType
    && entry.metadata.writable == MetadataOf(nodes[path]).writable
    && (nodes[path].Leaf? ==> entry.metadata == MetadataOf(nodes[path]))
  }

  /** The entry is that of a direct child outside `rest`, with exactly its metadata. */
  ghost predicate TakenFrom(nodes: Nodes, directory: string, entry: Entry, rest: set<string>) {
    exists path :: path in nodes && path !in rest && ChildName(directory, path) == Some(entry.name)
              && entry.metadata == MetadataOf(nodes[path])
  }

  ghost predicate AllCanonical(keys: set<string>) {
    forall key :: key in keys ==> CanonicalPath(key)
  }

  /** Names in increasing order. */
  ghost predicate InOrder(entries: seq<Entry>) {
    forall i, j :: 0 <= i < j < |entries| ==> Below(entries[i].name, entries[j].name)
  }

  /** Everything outside `rest` comes before everything in it. */
  ghost predicate CutAt(keys: set<string>, rest: set<string>) {
    forall before, after :: before in keys && before !in rest && after in rest ==> Below(before, after)
  }

  /** A child's path is its directory's path, a slash and its name, so it comes later. */
  lemma ChildPath(directory: string, path: string)
    requires CanonicalPath(directory) && CanonicalPath(path) && ChildName(directory, path).Some?
    ensures path == (if directory == "/" then "/" else directory + "/") + ChildName(directory, path).value
    ensures Below(directory, path)
  {
    hide Below, Segments, CanonicalPath;
    var ds, ps := Segments(directory), Segments(path);
    SegmentsPlain(directory);
    SegmentsPlain(path);
    NormalFixedPoints(directory);
    NormalFixedPoints(path);
    assert Render(ds) == directory && Render(ps) == path;
    ChildPrefix(ds);
    var name := ps[|ps| - 1];
    assert Plain(name) && path == Joined(ds) + "/" + name;
    BelowChild(directory, name);
  }

  lemma BelowChild(directory: string, name: string)
    requires name != ""
    ensures Below(directory, (if directory == "/" then "/" else directory + "/") + name)
  {
    if directory == "/" {
      BelowExtension("/", name);
    } else {
      BelowExtension(directory, "/" + name);
      assert directory + ("/" + name) == directory + "/" + name;
    }
  }

  /** Children in the order of their paths are in the order of their names. */
  lemma ChildOrder(directory: string, first: string, second: string)
    requires CanonicalPath(directory) && CanonicalPath(first) && CanonicalPath(second) && Below(first, second)
    requires ChildName(directory, first).Some? && ChildName(directory, second).Some?
    ensures Below(ChildName(directory, first).value, ChildName(directory, second).value)
  {
    ChildPath(directory, first);
    ChildPath(directory, second);
    var prefix := if directory == "/" then "/" else directory + "/";
    BelowAfterPrefix(prefix, ChildName(directory, first).value, ChildName(directory, second).value);
  }

  /** What has been gathered from the paths outside `rest`. */
  ghost predicate Gathered(nodes: Nodes, directory: string, entries: seq<Entry>, rest: set<string>) {
    && (forall i :: 0 <= i < |entries| ==> TakenFrom(nodes, directory, entries[i], rest))
    && (forall i, j :: 0 <= i < j < |entries| ==> entries[i].name != entries[j].name)
    && (AllCanonical(nodes.Keys) ==> InOrder(entries))
    && (forall path :: path in nodes && path !in rest && ChildName(directory, path).Some? ==>
          Named(entries, ChildName(directory, path).value))
  }

  lemma GatheredListing(nodes: Nodes, directory: string, entries: seq<Entry>)
    requires Gathered(nodes, directory, entries, {})
    ensures ListingOk(nodes, directory, entries)
  {
    forall i | 0 <= i < |entries| ensures Genuine(nodes, directory, entries[i]) {
      assert TakenFrom(nodes, directory, entries[i], {});
      var path :| path in nodes && ChildName(directory, path) == Some(entries[i].name)
               && entries[i].metadata == MetadataOf(nodes[path]);
      assert Describes(nodes, directory, entries[i], path);
    }
  }

  lemma TakenStill(nodes: Nodes, directory: string, entry: Entry, rest: set<string>, less: set<string>)
    requires TakenFrom(nodes, directory, entry, rest) && less <= rest
    ensures TakenFrom(nodes, directory, entry, less)
  {
  }

  /** The least remaining path is no child: nothing is added. */
  lemma GatheredSkip(nodes: Nodes, directory: string, entries: seq<Entry>, rest: set<string>, path: string)
    requires Gathered(nodes, directory, entries, rest) && ChildName(directory, path).None?
    ensures Gathered(nodes, directory, entries, rest - {path})
  {
    forall i | 0 <= i < |entries| ensures TakenFrom(nodes, directory, entries[i], rest - {path}) {
      TakenStill(nodes, directory, entries[i], rest, rest - {path});
    }
  }

  /** It is a child whose name is listed already. */
  lemma GatheredAgain(nodes: Nodes, directory: string, entries: seq<Entry>, rest: set<string>, path: string)
    requires Gathered(nodes, directory, entries, rest) && ChildName(directory, path).Some?
    requires Named(entries, ChildName(directory, path).value)
    ensures Gathered(nodes, directory, entries, rest - {path})
  {
    forall i | 0 <= i < |entries| ensures TakenFrom(nodes, directory, entries[i], rest - {path}) {
      TakenStill(nodes, directory, entries[i], rest, rest - {path});
    }
  }

  /** It is a child with a new name, which goes to the end. */
  lemma GatheredMore(nodes: Nodes, directory: string, entries: seq<Entry>, rest: set<string>, path: string, name: string)
    requires Gathered(nodes, directory, entries, rest) && path in nodes && path in rest && directory in nodes
    requires ChildName(directory, path) == Some(name) && !Named(entries, name) && CutAt(nodes.Keys, rest)
    ensures Gathered(nodes, directory, entries + [Entry(name, MetadataOf(nodes[path]))], rest - {path})
  {
    var after, less := entries + [Entry(name, MetadataOf(nodes[path]))], rest - {path};
    forall i | 0 <= i < |after| ensures TakenFrom(nodes, directory, after[i], less) {
      if i < |entries| {
        TakenStill(nodes, directory, entries[i], rest, less);
      } else {
        assert path in nodes && path !in less && ChildName(directory, path) == Some(after[i].name);
      }
    }
    if AllCanonical(nodes.Keys) {
      forall i | 0 <= i < |entries| ensures Below(entries[i].name, name) {
        assert TakenFrom(nodes, directory, entries[i], rest);
        var earlier :| earlier in nodes && earlier !in rest && ChildName(directory, earlier) == Some(entries[i].name);
        ChildOrder(directory, earlier, path);
      }
    }
    NamedMore(entries, after[|entries|]);
  }

  lemma NamedMore(entries: seq<Entry>, entry: Entry)
    ensures Named(entries + [entry], entry.name) && forall name :: Named(entries, name) ==> Named(entries + [entry], name)
  {
    var after := entries + [entry];
    assert after[|entries|] == entry;
    forall name | Named(entries, name) ensures Named(after, name) {
      var i :| 0 <= i < |entries| && entries[i].name == name;
      assert after[i].name == name;
    }
  }

  /** The listings as `RefreshDirectories` leaves them: in order of names, and with the metadata the
      children had before it, subdirectory sizes included. */
  ghost predicate ListsBefore(before: Nodes, directory: string, entries: seq<Entry>) {
    InOrder(entries) && forall i :: 0 <= i < |entries| ==> TakenFrom(before, directory, entries[i], {})
  }

  ghost predicate Genuine(nodes: Nodes, directory: string, entry: Entry) {
    exists path :: Describes(nodes, directory, entry, path)
  }

  ghost predicate Named(entries: seq<Entry>, name: string) {
    exists i :: 0 <= i < |entries| && entries[i].name == name
  }

  /** A listing names every direct child once and nothing else. */
  ghost predicate ListingOk(nodes: Nodes, directory: string, entries: seq<Entry>) {
    && (forall i :: 0 <= i < |entries| ==> Genuine(nodes, directory, entries[i]))
    && (forall i, j :: 0 <= i < j < |entries| ==> entries[i].name != entries[j].name)
    && (forall path :: path in nodes && ChildName(directory, path).Some? ==>
          Named(entries, ChildName(directory, path).value))
  }

  ghost predicate ListingsOk(nodes: Nodes) {
    forall directory :: directory in nodes && nodes[directory].Directory? ==>
      ListingOk(nodes, directory, nodes[directory].entries)
  }

  /** Same paths and kinds of nodes, and the same non-directories. */
  ghost predicate SameKinds(before: Nodes, after: Nodes) {
    && before.Keys == after.Keys
    && (forall path :: path in before ==> (before[path].Directory? <==> after[path].Directory?))
    && (forall path :: path in before && before[path].Leaf? ==> before[path] == after[path])
  }

  lemma ListingStable(before: Nodes, after: Nodes, directory: string, entries: seq<Entry>)
    requires SameKinds(before, after) && ListingOk(before, directory, entries)
    ensures ListingOk(after, directory, entries)
  {
    forall i | 0 <= i < |entries| ensures Genuine(after, directory, entries[i]) {
      assert Genuine(before, directory, entries[i]);
      var path :| Describes(before, directory, entries[i], path);
      assert Describes(after, directory, entries[i], path);
    }
  }

  lemma SameKindsMore(before: Nodes, now: Nodes, path: string, entries: seq<Entry>)
    requires SameKinds(before, now) && path in now && now[path].Directory?
    ensures SameKinds(before, now[path := Directory(entries)]) && SameKinds(now, now[path := Directory(entries)])
  {
  }

  lemma NothingGathered(nodes: Nodes, directory: string)
    ensures Gathered(nodes, directory, [], nodes.Keys) && CutAt(nodes.Keys, nodes.Keys)
  {
  }

  lemma CutMore(keys: set<string>, rest: set<string>, path: string)
    requires CutAt(keys, rest) && Least(path, rest)
    ensures CutAt(keys, rest - {path})
  {
  }

  /** The children of the least directory that is left have not been rebuilt yet. */
  lemma ListedBefore(before: Nodes, now: Nodes, directory: string, entries: seq<Entry>, directories: set<string>, rest: set<string>)
    requires AllCanonical(now.Keys) && before.Keys == now.Keys && directories <= now.Keys && directory in rest && rest <= directories
    requires CutAt(directories, rest) && Gathered(now, directory, entries, {})
    requires forall path :: path in now && (path in rest || path !in directories) ==> now[path] == before[path]
    ensures ListsBefore(before, directory, entries)
  {
    forall i | 0 <= i < |entries| ensures TakenFrom(before, directory, entries[i], {}) {
      assert TakenFrom(now, directory, entries[i], {});
      var path :| path in now && ChildName(directory, path) == Some(entries[i].name) && entries[i].metadata == MetadataOf(now[path]);
      ChildPath(directory, path);
      BelowStrict(directory, path);
      assert path in rest || path !in directories;
    }
  }

  /** The directories outside `rest` are rebuilt, everything else is as it was. */
  ghost predicate Refreshed(before: Nodes, now: Nodes, directories: set<string>, rest: set<string>) {
    && SameKinds(before, now) && rest <= directories && CutAt(directories, rest)
    && (forall path :: path in directories <==> path in now && now[path].Directory?)
    && (forall path :: path in now && (path in rest || path !in directories) ==> now[path] == before[path])
    && (forall path :: path in directories && path !in rest ==>
          && ListingOk(now, path, now[path].entries)
          && (AllCanonical(now.Keys) ==> ListsBefore(before, path, now[path].entries)))
  }

  lemma NothingRefreshed(nodes: Nodes, directories: set<string>)
    requires forall path :: path in directories <==> path in nodes && nodes[path].Directory?
    ensures Refreshed(nodes, nodes, directories, directories)
  {
  }

  lemma RestIsThere(before: Nodes, now: Nodes, directories: set<string>, rest: set<string>, path: string)
    requires Refreshed(before, now, directories, rest) && path in rest
    ensures path in now
  {
  }

  lemma RefreshedOne(before: Nodes, now: Nodes, directories: set<string>, rest: set<string>, path: string, entries: seq<Entry>)
    requires Refreshed(before, now, directories, rest) && Least(path, rest)
    requires ListingOk(now, path, entries) && Gathered(now, path, entries, {})
    ensures Refreshed(before, now[path := Directory(entries)], directories, rest - {path})
  {
    hide ListingOk, ListsBefore, Gathered;
    var after := now[path := Directory(entries)];
    CutMore(directories, rest, path);
    if AllCanonical(now.Keys) {
      ListedBefore(before, now, path, entries, directories, rest);
    }
    SameKindsMore(before, now, path, entries);
    forall other | other in directories && other !in rest - {path}
      ensures ListingOk(after, other, after[other].entries)
    {
      ListingStable(now, after, other, after[other].entries);
    }
  }

  lemma AllRefreshed(before: Nodes, now: Nodes, directories: set<string>)
    requires Refreshed(before, now, directories, {})
    ensures SameKinds(before, now) && ListingsOk(now)
    ensures AllCanonical(now.Keys) ==>
              forall path :: path in now && now[path].Directory? ==> ListsBefore(before, path, now[path].entries)
  {
    hide ListingOk, ListsBefore, SameKinds;
  }

  lemma NotItsOwnChild(path: string)
    ensures ChildName(path, path).None?
  {
  }

  /** In a namespace with canonical keys a listing names exactly the last segments of the paths
      whose parent is the directory. */
  lemma ListedExactly(nodes: Nodes, directory: string, entries: seq<Entry>, name: string)
    requires KeysOk(nodes.Keys) && directory in nodes && ListingOk(nodes, directory, entries)
    ensures Named(entries, name) <==>
            exists path :: path in nodes && path != "/" && ParentPath(path) == directory && path[AfterLastSlash(path)..] == name
  {
    assert CanonicalPath(directory);
    forall path | path in nodes
      ensures ChildName(directory, path).Some? <==> path != "/" && ParentPath(path) == directory
      ensures ChildName(directory, path).Some? ==> ChildName(directory, path).value == path[AfterLastSlash(path)..]
    {
      ChildHasParent(directory, path);
    }
    if Named(entries, name) {
      var i :| 0 <= i < |entries| && entries[i].name == name;
      assert Genuine(nodes, directory, entries[i]);
    }
  }

  // ---------------------------------------------------------------- the filesystem

  datatype Mount = Mount(path: string, source: nat, flags: nat)

  /** One mount record per path, and exactly the paths of nodes. */
  ghost predicate MountsOk(mounts: seq<Mount>, keys: set<string>) {
    && (forall i, j :: 0 <= i < j < |mounts| ==> mounts[i].path != mounts[j].path)
    && (forall i :: 0 <= i < |mounts| ==> mounts[i].path in keys)
    && (forall key :: key in keys ==> HasMount(mounts, key))
  }

  ghost predicate HasMount(mounts: seq<Mount>, path: string) {
    exists i :: 0 <= i < |mounts| && mounts[i].path == path
  }

  lemma MountUpdated(mounts: seq<Mount>, keys: set<string>, index: nat, mount: Mount)
    requires MountsOk(mounts, keys) && index < |mounts| && mounts[index].path == mount.path
    ensures MountsOk(mounts[index := mount], keys + {mount.path})
  {
    var after := mounts[index := mount];
    forall key | key in keys + {mount.path} ensures HasMount(after, key) {
      assert HasMount(mounts, key);
      var i :| 0 <= i < |mounts| && mounts[i].path == key;
      assert after[i].path == key;
    }
  }

  lemma MountAppended(mounts: seq<Mount>, keys: set<string>, mount: Mount)
    requires MountsOk(mounts, keys) && forall i :: 0 <= i < |mounts| ==> mounts[i].path != mount.path
    ensures MountsOk(mounts + [mount], keys + {mount.path})
  {
    var after := mounts + [mount];
    assert after[|mounts|] == mount;
    forall key | key in keys + {mount.path} ensures HasMount(after, key) {
      if key != mount.path {
        assert HasMount(mounts, key);
        var i :| 0 <= i < |mounts| && mounts[i].path == key;
        assert after[i].path == key;
      }
    }
  }

  class VirtualFileSystem {
    var nodes: Nodes
    var mounts: seq<Mount>

    ghost predicate Valid()
      reads this
    {
      KeysOk(nodes.Keys) && MountsOk(mounts, nodes.Keys) && ListingsOk(nodes)
    }

    constructor ()
      ensures Valid() && nodes == map[] && mounts == []
    {
      nodes := map[];
      mounts := [];
    }

    /** Update the record for `path` or append one; every other record stays. */
    method UpsertMount(path: string, source: nat, flags: nat, ghost keys: set<string>)
      requires MountsOk(mounts, keys)
      modifies this`mounts
      ensures MountsOk(mounts, keys + {path}) && Mount(path, source, flags) in mounts
      ensures forall mount :: mount in old(mounts) && mount.path != path ==> mount in mounts
    {
      var index, mount := 0, Mount(path, source, flags);
      while index < |mounts| && mounts[index].path != path
        invariant index <= |mounts|
        invariant forall i :: 0 <= i < index ==> mounts[i].path != path
      {
        index := index + 1;
      }
      ghost var before := mounts;
      if index < |mounts| {
        MountUpdated(mounts, keys, index, mount);
        mounts := mounts[index := mount];
        assert mounts[index] == mount;
        assert forall i :: 0 <= i < |before| && before[i].path != path ==> mounts[i] == before[i];
      } else {
        MountAppended(mounts, keys, mount);
        mounts := mounts + [mount];
      }
    }

    /** The listing of a directory, from all current nodes in the order of their paths. */
    method CollectDirectoryEntries(directory: string) returns (entries: seq<Entry>)
      requires directory in nodes
      ensures ListingOk(nodes, directory, entries) && Gathered(nodes, directory, entries, {})
    {
      hide Gathered, CutAt, ChildName, ListingOk, DirectChild;
      entries := [];
      var rest := nodes.Keys;
      NothingGathered(nodes, directory);
      while rest != {}
        invariant rest <= nodes.Keys && CutAt(nodes.Keys, rest)
        invariant Gathered(nodes, directory, entries, rest)
      {
        ghost var least := LeastExists(rest);
        var path :| path in rest && Least(path, rest);
        DirectChildIs(directory, path);
        NotItsOwnChild(directory);
        CutMore(nodes.Keys, rest, path);
        var name := if path == directory then None else DirectChild(directory, path);
        if name.None? {
          GatheredSkip(nodes, directory, entries, rest, path);
        } else {
          entries := AppendNew(directory, entries, rest, path, name.value);
        }
        rest := rest - {path};
      }
      GatheredListing(nodes, directory, entries);
    }

    /** Append the entry for `path` unless its name is already listed. */
    method AppendNew(directory: string, entries: seq<Entry>, ghost rest: set<string>, path: string, name: string)
        returns (after: seq<Entry>)
      requires directory in nodes && path in nodes && path in rest && ChildName(directory, path) == Some(name)
      requires Gathered(nodes, directory, entries, rest) && CutAt(nodes.Keys, rest)
      ensures Gathered(nodes, directory, after, rest - {path})
    {
      hide Gathered, CutAt, ChildName;
      var index := 0;
      while index < |entries| && entries[index].name != name
        invariant index <= |entries|
        invariant forall i :: 0 <= i < index ==> entries[i].name != name
      {
        index := index + 1;
      }
      if index < |entries| {
        GatheredAgain(nodes, directory, entries, rest, path);
        return entries;
      }
      GatheredMore(nodes, directory, entries, rest, path, name);
      return entries + [Entry(name, MetadataOf(nodes[path]))];
    }

    /** Rebuild the listing of every directory, in the order of their paths. A directory comes before its
        subdirectories, so it lists them with the sizes they had before. */
    method RefreshDirectories()
      modifies this`nodes
      ensures SameKinds(old(nodes), nodes) && ListingsOk(nodes)
      ensures AllCanonical(nodes.Keys) ==>
                forall path :: path in nodes && nodes[path].Directory? ==> ListsBefore(old(nodes), path, nodes[path].entries)
    {
      hide Refreshed, ListingOk, ListsBefore, Gathered, SameKinds;
      ghost var before := nodes;
      var rest := set path | path in nodes && nodes[path].Directory?;
      ghost var directories := rest;
      NothingRefreshed(nodes, directories);
      while rest != {}
        invariant Refreshed(before, nodes, directories, rest)
      {
        ghost var least := LeastExists(rest);
        var path :| path in rest && Least(path, rest);
        RestIsThere(before, nodes, directories, rest, path);
        var entries := CollectDirectoryEntries(path);
        RefreshedOne(before, nodes, directories, rest, path, entries);
        nodes := nodes[path := Directory(entries)];
        rest := rest - {path};
      }
      AllRefreshed(before, nodes, directories);
    }

    /** Create a directory node and a mount record for every missing parent of a canonical path. */
    method EnsureParentDirectories(path: string, source: nat, flags: nat, ghost stack: seq<string>)
      requires AllPlain(stack) && path == Render(stack) && MountsOk(mounts, nodes.Keys)
      modifies this
      ensures nodes.Keys == old(nodes).Keys + Ancestors(stack) && OnlyEmptyAdded(old(nodes), nodes)
      ensures MountsOk(mounts, nodes.Keys)
    {
      hide MountsOk, Ancestors, AllPlain, Render, OnlyEmptyAdded;
      var parents := ParentsOf(path, stack);
      NoAncestors(stack);
      NothingAdded(nodes);
      for index := 0 to |parents|
        invariant nodes.Keys == old(nodes).Keys + Ancestors(stack[..index]) && OnlyEmptyAdded(old(nodes), nodes)
        invariant MountsOk(mounts, nodes.Keys)
      {
        AncestorsStep(stack, index);
        EnsureDirectory(parents[index], source, flags, old(nodes));
      }
      assert stack[..|stack|] == stack;
    }

    /** Create one directory with its mount record if nothing is there. */
    method EnsureDirectory(parent: string, source: nat, flags: nat, ghost before: Nodes)
      requires MountsOk(mounts, nodes.Keys) && OnlyEmptyAdded(before, nodes)
      modifies this
      ensures nodes.Keys == old(nodes).Keys + {parent} && OnlyEmptyAdded(before, nodes)
      ensures MountsOk(mounts, nodes.Keys)
    {
      hide MountsOk;
      if parent !in nodes {
        ghost var keys := nodes.Keys;
        nodes := nodes[parent := Directory([])];
        assert nodes.Keys == keys + {parent};
        UpsertMount(parent, source, flags, keys);
      }
    }

    /** Insert a node under its canonical path, with its parents, and refresh every listing. */
    method MountNode(path: string, node: Node, source: nat, flags: nat)
      requires Valid()
      modifies this
      ensures Valid()
      ensures nodes.Keys == old(nodes).Keys + Ancestors(Segments(path)) + {Normal(path)}
      ensures nodes[Normal(path)].Directory? <==> node.Directory?
      ensures node.Leaf? ==> nodes[Normal(path)] == node
      ensures forall key :: key in old(nodes) && key != Normal(path) ==>
                (old(nodes)[key].Leaf? ==> nodes[key] == old(nodes)[key]) && (old(nodes)[key].Directory? ==> nodes[key].Directory?)
      ensures Mount(Normal(path), source, flags) in mounts
      ensures forall directory :: directory in nodes && nodes[directory].Directory? ==>
                ListsBefore(Unlisted(old(nodes), Segments(path), node), directory, nodes[directory].entries)
    {
      hide KeysOk, MountsOk, ListingsOk, Ancestors, ListsBefore, AllCanonical;
      var key := NormalizePath(path);
      SegmentsPlain(path);
      AncestorsClosed(nodes.Keys, Segments(path));
      EnsureParentDirectories(key, source, flags, Segments(path));
      ghost var keys := nodes.Keys;
      nodes := nodes[key := node];
      assert nodes.Keys == keys + {key};
      assert nodes == Unlisted(old(nodes), Segments(path), node);
      UpsertMount(key, source, flags, keys);
      RefreshDirectories();
      KeysCanonical(nodes.Keys);
    }
  }

  /** The parent of each prefix of a canonical path, built segment by segment. */
  method ParentsOf(path: string, ghost stack: seq<string>) returns (parents: seq<string>)
    requires AllPlain(stack) && path == Render(stack)
    ensures |parents| == |stack| && forall i :: 0 <= i < |stack| ==> parents[i] == Render(stack[..i])
  {
    hide NonEmpty, Joined, Render, ParentPath, AllPlain, Split;
    var segments, current := Split(path), "";
    parents := [];
    ghost var done := 0;
    ParentsBegin(stack, segments);
    for index := 0 to |segments|
      invariant 0 <= done <= |stack| && current == Joined(stack[..done])
      invariant NonEmpty(segments[index..]) == stack[done..]
      invariant |parents| == done && forall i :: 0 <= i < done ==> parents[i] == Render(stack[..i])
    {
      NextSegment(stack, segments, index, done);
      var segment := segments[index];
      if segment == "" {
        continue;
      }
      PrefixParent(stack, done);
      current := if current == "" then "/" + segment else current + "/" + segment;
      parents := parents + [ParentPath(current)];
      done := done + 1;
    }
    ParentsEnd(stack, segments, done);
  }

  lemma ParentsBegin(stack: seq<string>, segments: seq<string>)
    requires AllPlain(stack) && segments == Split(Render(stack))
    ensures Joined(stack[..0]) == "" && NonEmpty(segments[0..]) == stack[0..]
  {
    RenderSegments(stack);
    assert segments[0..] == segments && stack[0..] == stack;
  }

  lemma ParentsEnd(stack: seq<string>, segments: seq<string>, done: nat)
    requires done <= |stack| && NonEmpty(segments[|segments|..]) == stack[done..]
    ensures done == |stack|
  {
  }

  lemma NextSegment(stack: seq<string>, segments: seq<string>, index: nat, done: nat)
    requires index < |segments| && done <= |stack| && NonEmpty(segments[index..]) == stack[done..]
    ensures segments[index] == "" ==> NonEmpty(segments[index + 1..]) == stack[done..]
    ensures segments[index] != "" ==>
              && done < |stack| && segments[index] == stack[done]
              && NonEmpty(segments[index + 1..]) == stack[done + 1..]
  {
    assert segments[index..][1..] == segments[index + 1..];
    if segments[index] != "" {
      assert stack[done..] == [segments[index]] + NonEmpty(segments[index + 1..]);
      assert stack[done..][1..] == NonEmpty(segments[index + 1..]);
    }
  }

  lemma PrefixParent(stack: seq<string>, done: nat)
    requires AllPlain(stack) && done < |stack|
    ensures Joined(stack[..done + 1]) == Joined(stack[..done]) + "/" + stack[done]
    ensures ParentPath(Joined(stack[..done + 1])) == Render(stack[..done])
  {
    assert stack[..done + 1][..done] == stack[..done];
    ParentOfRender(stack[..done + 1]);
  }

  function NonEmpty(segments: seq<string>): seq<string> {
    if segments == [] then []
    else (if segments[0] == "" then [] else [segments[0]]) + NonEmpty(segments[1..])
  }

  lemma {:induction false} NonEmptyPlain(stack: seq<string>)
    requires AllPlain(stack)
    ensures NonEmpty(stack) == stack
  {
    if stack != [] {
      assert Plain(stack[0]);
      NonEmptyPlain(stack[1..]);
    }
  }

  lemma RenderSegments(stack: seq<string>)
    requires AllPlain(stack)
    ensures NonEmpty(Split(Render(stack))) == stack
  {
    if stack == [] {
      assert Split("/") == ["", ""];
      assert ["", ""][1..] == [""] && [""][1..] == [];
    } else {
      SplitJoined(stack);
      NonEmptyPlain(stack);
      assert ([""] + stack)[1..] == stack;
    }
  }

  lemma NoAncestors(stack: seq<string>)
    ensures Ancestors(stack[..0]) == {}
  {
  }

  lemma AncestorsStep(stack: seq<string>, index: nat)
    requires index < |stack|
    ensures Ancestors(stack[..index + 1]) == Ancestors(stack[..index]) + {Render(stack[..index])}
  {
    var longer, shorter := stack[..index + 1], stack[..index];
    forall i | 0 <= i < |longer| ensures Render(longer[..i]) in Ancestors(shorter) + {Render(shorter)} {
      assert longer[..i] == stack[..i];
      if i < index {
        assert shorter[..i] == stack[..i];
      }
    }
    forall i | 0 <= i < |shorter| ensures Render(shorter[..i]) in Ancestors(longer) {
      assert shorter[..i] == longer[..i];
    }
    assert longer[..index] == shorter;
  }
}
