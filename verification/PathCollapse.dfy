/**
 * Lexical collapse of `.` and `..` in a path (lexical_collapse_path in
 * src/sandbox/allowlist_path.c), against path resolution in a file tree with symlinks.
 */
module PathCollapse {
  import opened Text

  const PATH_MAX := 4096

  // ------------------------------------------------------------ the file tree

  type Id = nat

  datatype Node = File | Dir(entries: map<string, Id>) | Link(target: string)

  /** Node 0 is the root directory. `parent` is the directory `..` leads to. */
  datatype Tree = Tree(nodes: map<Id, Node>, parent: map<Id, Id>)

  /** Entries lead to nodes, each of which knows its one parent; the root is its own parent. */
  ghost predicate IsTree(fs: Tree)
  {
    && 0 in fs.nodes && fs.nodes[0].Dir?
    && 0 in fs.parent && fs.parent[0] == 0
    && (forall d, name :: d in fs.nodes && fs.nodes[d].Dir? && name in fs.nodes[d].entries ==>
          var c := fs.nodes[d].entries[name];
          c in fs.nodes && c in fs.parent && fs.parent[c] == d)
    && (forall c :: c in fs.nodes && fs.nodes[c].Dir? ==> c in fs.parent && fs.parent[c] in fs.nodes)
  }

  function IndexOfSlash(s: string): (k: nat)
    ensures k <= |s| && (k < |s| ==> s[k] == '/')
    ensures forall i :: 0 <= i < k ==> s[i] != '/'
  {
    if s == "" || s[0] == '/' then 0 else 1 + IndexOfSlash(s[1..])
  }

  /** The text between slashes, empty pieces included. */
  function Segments(s: string): (segs: seq<string>)
    ensures forall seg :: seg in segs ==> '/' !in seg
    decreases |s|
  {
    var k := IndexOfSlash(s);
    if k == |s| then [s] else [s[..k]] + Segments(s[k + 1..])
  }

  /** Where a walk stands, and how many more links the kernel will follow. */
  datatype Place = Place(node: Id, links: nat)

  /**
   * The kernel's walk from directory `cur` along `segs`, following links everywhere,
   * the last segment included, and giving up when `links` are used up.
   */
  function Walk(fs: Tree, cur: Id, segs: seq<string>, links: nat): (r: Option<Place>)
    ensures r.Some? ==> r.value.links <= links
    decreases links, |segs|
  {
    if segs == [] then Some(Place(cur, links))
    else
      var p := Step(fs, cur, segs[0], links);
      if p.None? then None else Walk(fs, p.value.node, segs[1..], p.value.links)
  }

  /** One segment of the walk. */
  function Step(fs: Tree, cur: Id, seg: string, links: nat): (r: Option<Place>)
    ensures r.Some? ==> r.value.links <= links
    decreases links, 0
  {
    if cur !in fs.nodes || !fs.nodes[cur].Dir? then None
    else if seg == "" || seg == "." then Some(Place(cur, links))
    else if seg == ".." then (if cur in fs.parent then Some(Place(fs.parent[cur], links)) else None)
    else if seg !in fs.nodes[cur].entries then None
    else
      var c := fs.nodes[cur].entries[seg];
      if c in fs.nodes && fs.nodes[c].Link? then
        if links == 0 then None
        else
          var t := fs.nodes[c].target;
          Walk(fs, if t != "" && t[0] == '/' then 0 else cur, Segments(t), links - 1)
      else Some(Place(c, links))
  }

  /** A link is followed from its own directory, or from the root, while there are traversals left. */
  lemma {:induction false} LinkIsFollowed(fs: Tree, cur: Id, seg: string, links: nat, c: Id, target: string)
    requires cur in fs.nodes && fs.nodes[cur].Dir? && seg != "" && seg != "." && seg != ".."
    requires seg in fs.nodes[cur].entries && fs.nodes[cur].entries[seg] == c
    requires c in fs.nodes && fs.nodes[c] == Link(target)
    ensures Step(fs, cur, seg, links) ==
              if links == 0 then None
              else Walk(fs, if "/" <= target then 0 else cur, Segments(target), links - 1)
  {
    hide Walk, Segments;
  }

  predicate Absolute(path: string)
  {
    path != "" && path[0] == '/'
  }

  /** What the scan of a path cuts up: a leading slash is skipped. */
  function Tail(path: string): (t: string)
  {
    if Absolute(path) then path[1..] else path
  }

  /** Where a path leads for a process whose working directory is `cwd`. */
  function Resolve(fs: Tree, cwd: Id, path: string, links: nat): (r: Option<Place>)
  {
    if path == "" then None
    else Walk(fs, if Absolute(path) then 0 else cwd, Segments(Tail(path)), links)
  }

  /** What the stack of parts stands for: names below the directory `from`. */
  datatype Setting = Setting(fs: Tree, from: Id, absolute: bool, links: nat)

  function At(fs: Tree, cwd: Id, path: string, links: nat): (w: Setting)
  {
    Setting(fs, if Absolute(path) then 0 else cwd, Absolute(path), links)
  }

  /** `lstat`: the last segment of `parts` names a link, which is not followed. */
  predicate IsLinkAt(w: Setting, parts: seq<string>)
    requires parts != []
  {
    var name := parts[|parts| - 1];
    var p := Walk(w.fs, w.from, parts[..|parts| - 1], w.links);
    && p.Some?
    && p.value.node in w.fs.nodes && w.fs.nodes[p.value.node].Dir?
    && name in w.fs.nodes[p.value.node].entries
    && var c := w.fs.nodes[p.value.node].entries[name];
       c in w.fs.nodes && w.fs.nodes[c].Link?
  }

  // --------------------------------------------------------------- the collapse

  function JoinTail(parts: seq<string>): (s: string)
    ensures if parts == [] then s == "" else Absolute(s)
  {
    if parts == [] then "" else JoinTail(parts[..|parts| - 1]) + "/" + parts[|parts| - 1]
  }

  /** The path of the stacked parts. */
  function Join(parts: seq<string>, absolute: bool): (s: string)
    ensures absolute ==> Absolute(s)
  {
    if parts == [] then (if absolute then "/" else ".")
    else if absolute then JoinTail(parts)
    else JoinTail(parts)[1..]
  }

  predicate Plain(seg: string)
  {
    seg != "" && seg != "." && seg != ".." && '/' !in seg
  }

  /** `..` must not cancel the top of the stack: it is a link, or too long to probe. */
  predicate Sticky(w: Setting, parts: seq<string>)
    requires parts != []
  {
    |Join(parts, w.absolute)| >= PATH_MAX || IsLinkAt(w, parts)
  }

  /** The stack after one segment; None when the collapse gives up. */
  function Push(w: Setting, parts: seq<string>, seg: string): (r: Option<seq<string>>)
  {
    if seg == "" || seg == "." then Some(parts)
    else if seg == ".." then
      if parts == [] then Some(parts)
      else if Sticky(w, parts) then None
      else Some(parts[..|parts| - 1])
    else if |parts| >= PATH_MAX / 2 then None
    else Some(parts + [seg])
  }

  function PushAll(w: Setting, parts: seq<string>, segs: seq<string>): (r: Option<seq<string>>)
    decreases |segs|
  {
    if segs == [] then Some(parts)
    else
      var p := Push(w, parts, segs[0]);
      if p.None? then None else PushAll(w, p.value, segs[1..])
  }

  /** What the collapse returns for a path, or None when it refuses. */
  function Collapse(fs: Tree, cwd: Id, path: string, links: nat): (r: Option<string>)
  {
    if path == "" || |path| >= PATH_MAX then None
    else
      var p := PushAll(At(fs, cwd, path, links), [], Segments(Tail(path)));
      if p.None? || |Join(p.value, Absolute(path))| >= PATH_MAX then None
      else Some(Join(p.value, Absolute(path)))
  }

  /** A `..` is met when no part is left to cancel, `depth` parts being there at first. */
  predicate Climbs(depth: nat, segs: seq<string>)
    decreases |segs|
  {
    segs != [] &&
    if segs[0] == "" || segs[0] == "." then Climbs(depth, segs[1..])
    else if segs[0] == ".." then depth == 0 || Climbs(depth - 1, segs[1..])
    else Climbs(depth + 1, segs[1..])
  }

  // -------------------------------------------------------- meaning preserved

  lemma {:induction false} WalkAppend(fs: Tree, cur: Id, a: seq<string>, b: seq<string>, links: nat)
    ensures var p := Walk(fs, cur, a, links);
            Walk(fs, cur, a + b, links) == if p.None? then None else Walk(fs, p.value.node, b, p.value.links)
    decreases |a|, links
  {
    hide Step;
    if a == [] {
      assert a + b == b;
    } else {
      assert (a + b)[1..] == a[1..] + b && (a + b)[0] == a[0];
      var p := Step(fs, cur, a[0], links);
      if p.Some? { WalkAppend(fs, p.value.node, a[1..], b, p.value.links); }
    }
  }

  lemma {:induction false} WalkLast(fs: Tree, from: Id, parts: seq<string>, links: nat)
    requires parts != []
    ensures var d := Walk(fs, from, parts[..|parts| - 1], links);
            Walk(fs, from, parts, links) ==
            if d.None? then None else Step(fs, d.value.node, parts[|parts| - 1], d.value.links)
  {
    var init, name := parts[..|parts| - 1], parts[|parts| - 1];
    WalkAppend(fs, from, init, [name], links);
    assert init + [name] == parts;
    hide Step;
    var d := Walk(fs, from, init, links);
    if d.Some? {
      var p := Step(fs, d.value.node, name, d.value.links);
      assert p.Some? ==> Walk(fs, p.value.node, [name][1..], p.value.links) == p;
    }
  }

  ghost predicate PlainParts(parts: seq<string>)
  {
    forall i :: 0 <= i < |parts| ==> Plain(parts[i])
  }

  /** One segment: the stack stays a path to where the kernel is. */
  lemma {:induction false} PushFollowsStep(w: Setting, parts: seq<string>, seg: string, p: Place)
    requires IsTree(w.fs) && PlainParts(parts)
    requires seg == ".." && parts == [] ==> w.from == 0
    requires Walk(w.fs, w.from, parts, w.links) == Some(p)
    requires Step(w.fs, p.node, seg, p.links).Some? && Push(w, parts, seg).Some?
    ensures Walk(w.fs, w.from, Push(w, parts, seg).value, w.links) == Step(w.fs, p.node, seg, p.links)
  {
    if seg == ".." {
      if parts != [] {
        PopFollowsParent(w, parts, p);
      } else {
        assert p == Place(0, w.links);
      }
    } else if seg != "" && seg != "." {
      WalkLast(w.fs, w.from, parts + [seg], w.links);
      assert (parts + [seg])[..|parts|] == parts;
    }
  }

  /** Unless the top of the stack is a link, `..` leads back to the directory below it. */
  lemma {:induction false} PopFollowsParent(w: Setting, parts: seq<string>, p: Place)
    requires IsTree(w.fs) && PlainParts(parts) && parts != []
    requires Walk(w.fs, w.from, parts, w.links) == Some(p) && !IsLinkAt(w, parts)
    requires Step(w.fs, p.node, "..", p.links).Some?
    ensures Walk(w.fs, w.from, parts[..|parts| - 1], w.links) == Step(w.fs, p.node, "..", p.links)
  {
    WalkLast(w.fs, w.from, parts, w.links);
    hide Walk, Segments;
    assert Plain(parts[|parts| - 1]);
  }

  lemma {:induction false} PushKeepsPlain(w: Setting, parts: seq<string>, seg: string)
    requires PlainParts(parts) && '/' !in seg && |parts| <= PATH_MAX / 2
    requires Push(w, parts, seg).Some?
    ensures PlainParts(Push(w, parts, seg).value) && |Push(w, parts, seg).value| <= PATH_MAX / 2
  {
    hide Sticky;
  }

  lemma {:induction false} PushAllFollowsWalk(w: Setting, parts: seq<string>, segs: seq<string>, p: Place)
    requires IsTree(w.fs) && PlainParts(parts) && |parts| <= PATH_MAX / 2
    requires forall seg :: seg in segs ==> '/' !in seg
    requires w.from == 0 || !Climbs(|parts|, segs)
    requires Walk(w.fs, w.from, parts, w.links) == Some(p)
    requires Walk(w.fs, p.node, segs, p.links).Some? && PushAll(w, parts, segs).Some?
    ensures Walk(w.fs, w.from, PushAll(w, parts, segs).value, w.links) == Walk(w.fs, p.node, segs, p.links)
    decreases |segs|
  {
    if segs != [] {
      PushFollowsStep(w, parts, segs[0], p);
      PushKeepsPlain(w, parts, segs[0]);
      PushClimbs(w, parts, segs);
      hide IsTree, Push, Step, PlainParts, Climbs;
      PushAllFollowsWalk(w, Push(w, parts, segs[0]).value, segs[1..], Step(w.fs, p.node, segs[0], p.links).value);
    }
  }

  lemma {:induction false} PushClimbs(w: Setting, parts: seq<string>, segs: seq<string>)
    requires segs != [] && Push(w, parts, segs[0]).Some?
    ensures Climbs(|parts|, segs) <==>
              (segs[0] == ".." && parts == []) || Climbs(|Push(w, parts, segs[0]).value|, segs[1..])
  {
    hide Sticky;
  }

  lemma {:induction false} PushAllPlain(w: Setting, parts: seq<string>, segs: seq<string>)
    requires PlainParts(parts) && |parts| <= PATH_MAX / 2
    requires forall seg :: seg in segs ==> '/' !in seg
    requires PushAll(w, parts, segs).Some?
    ensures PlainParts(PushAll(w, parts, segs).value) && |PushAll(w, parts, segs).value| <= PATH_MAX / 2
    decreases |segs|
  {
    if segs != [] {
      PushKeepsPlain(w, parts, segs[0]);
      hide Push, PlainParts;
      PushAllPlain(w, Push(w, parts, segs[0]).value, segs[1..]);
    }
  }

  // ------------------------------------------------------- joining and splitting

  lemma {:induction false} SegmentsAppend(s: string, seg: string)
    requires '/' !in seg
    ensures Segments(s + "/" + seg) == Segments(s) + [seg]
    decreases |s|
  {
    var k, t := IndexOfSlash(s), s + "/" + seg;
    hide Segments, IndexOfSlash;
    AppendAt(s, seg, k);
    SegmentsUnfold(t, k);
    SegmentsUnfold(s, k);
    if k == |s| {
      SegmentsUnfold(seg, |seg|);
      assert seg[..|seg|] == seg && [seg] + [] == [seg];
    } else {
      SegmentsAppend(s[k + 1..], seg);
      assert [s[..k]] + (Segments(s[k + 1..]) + [seg]) == [s[..k]] + Segments(s[k + 1..]) + [seg];
    }
  }

  lemma {:induction false} AppendAt(s: string, seg: string, k: nat)
    requires k <= |s| && (k < |s| ==> s[k] == '/') && forall i :: 0 <= i < k ==> s[i] != '/'
    ensures var t := s + "/" + seg;
            && k < |t| && t[k] == '/' && (forall i :: 0 <= i < k ==> t[i] != '/') && t[..k] == s[..k]
            && t[k + 1..] == if k == |s| then seg else s[k + 1..] + "/" + seg
  {
  }

  lemma {:induction false} SegmentsUnfold(s: string, k: nat)
    requires k <= |s| && (k < |s| ==> s[k] == '/') && forall i :: 0 <= i < k ==> s[i] != '/'
    ensures Segments(s) == [s[..k]] + (if k == |s| then [] else Segments(s[k + 1..]))
  {
    FirstSlash(s, k);
    assert k == |s| ==> s[..k] == s;
  }

  lemma {:induction false} FirstSlash(s: string, k: nat)
    requires k <= |s| && (k < |s| ==> s[k] == '/') && forall i :: 0 <= i < k ==> s[i] != '/'
    ensures IndexOfSlash(s) == k
  {
    if k > 0 { FirstSlash(s[1..], k - 1); }
  }

  /** Splitting joined parts gives them back. */
  lemma {:induction false} SegmentsOfJoin(parts: seq<string>)
    requires PlainParts(parts) && parts != []
    ensures Segments(JoinTail(parts)[1..]) == parts
    decreases |parts|
  {
    var init, name := parts[..|parts| - 1], parts[|parts| - 1];
    assert Plain(name);
    assert parts == init + [name];
    if init == [] {
      assert JoinTail(parts)[1..] == name;
      FirstSlash(name, |name|);
    } else {
      assert PlainParts(init);
      SegmentsOfJoin(init);
      SegmentsAppend(JoinTail(init)[1..], name);
      assert JoinTail(parts)[1..] == JoinTail(init)[1..] + "/" + name;
    }
  }

  /** The joined path is absolute or relative as asked, and its segments are the parts. */
  lemma {:induction false} JoinedPath(parts: seq<string>, absolute: bool)
    requires PlainParts(parts)
    ensures var s := Join(parts, absolute);
            && s != "" && (Absolute(s) <==> absolute)
            && Segments(Tail(s)) == if parts != [] then parts else if absolute then [""] else ["."]
  {
    if parts == [] {
      FirstSlash(".", 1);
      assert "/"[1..] == "";
    } else {
      SegmentsOfJoin(parts);
      assert Plain(parts[0]);
      hide JoinTail;
      var s := JoinTail(parts)[1..];
      SegmentsUnfold(s, IndexOfSlash(s));
    }
  }

  /** Walking no part, or the one part `.` or nothing, stays where it is. */
  lemma {:induction false} StaysPut(fs: Tree, cur: Id, seg: string, links: nat)
    requires (seg == "" || seg == ".") && cur in fs.nodes && fs.nodes[cur].Dir?
    ensures Walk(fs, cur, [seg], links) == Some(Place(cur, links)) == Walk(fs, cur, [], links)
  {
    assert Step(fs, cur, seg, links) == Some(Place(cur, links));
    assert Walk(fs, cur, [seg][1..], links) == Some(Place(cur, links));
  }

  /** A joined path leads where its parts lead, from a directory. */
  lemma {:induction false} JoinedResolves(w: Setting, cwd: Id, parts: seq<string>)
    requires PlainParts(parts) && w.from == if w.absolute then 0 else cwd
    requires w.from in w.fs.nodes && w.fs.nodes[w.from].Dir?
    ensures Resolve(w.fs, cwd, Join(parts, w.absolute), w.links) == Walk(w.fs, w.from, parts, w.links)
  {
    JoinedPath(parts, w.absolute);
    StaysPut(w.fs, w.from, "", w.links);
    StaysPut(w.fs, w.from, ".", w.links);
  }

  /** The collapsed path, when there is one, leads where the path leads. */
  ghost predicate KeepsMeaning(fs: Tree, cwd: Id, path: string, links: nat)
  {
    IsTree(fs) && Resolve(fs, cwd, path, links).Some? && Collapse(fs, cwd, path, links).Some? ==>
      Resolve(fs, cwd, Collapse(fs, cwd, path, links).value, links) == Resolve(fs, cwd, path, links)
  }

  /** The path never asks for a directory above the working directory it starts in. */
  predicate StaysBelow(path: string)
  {
    Absolute(path) || !Climbs(0, Segments(path))
  }

  /**
   * In any tree, from any working directory, with any bound on link traversals: a path that
   * resolves and that the collapse accepts still resolves, to the same node and following
   * as many links, unless it is relative and climbs above its start.
   */
  lemma {:induction false} CollapsePreservesMeaning(fs: Tree, cwd: Id, path: string, links: nat)
    requires StaysBelow(path)
    ensures KeepsMeaning(fs, cwd, path, links)
  {
    if IsTree(fs) && Resolve(fs, cwd, path, links).Some? && Collapse(fs, cwd, path, links).Some? {
      var w, segs := At(fs, cwd, path, links), Segments(Tail(path));
      hide Climbs;
      PushAllFollowsWalk(w, [], segs, Place(w.from, links));
      PushAllPlain(w, [], segs);
      assert Step(fs, w.from, segs[0], links).Some?;
      hide Walk, Segments, PushAll, Join;
      JoinedResolves(w, cwd, PushAll(w, [], segs).value);
    }
  }

  // ----------------------------------------------- where a relative path climbs

  /** A rung of the ladder: every name leads one down, and nowhere from the last. */
  function Rung(names: set<string>, n: nat, i: Id): (d: Node)
  {
    Dir(if i < n then map name | name in names :: i + 1 else map[])
  }

  function Above(i: Id): (up: Id)
  {
    if i == 0 then 0 else i - 1
  }

  /** A chain of directories 0 to `n`, where each name leads one down and `..` one up. */
  function Ladder(names: set<string>, n: nat): (fs: Tree)
    ensures forall i :: i in fs.nodes ==> fs.nodes[i].Dir?
  {
    Tree(map i: Id | 0 <= i <= n :: Rung(names, n, i), map i: Id | 0 <= i <= n :: Above(i))
  }

  lemma {:induction false} LadderIsTree(names: set<string>, n: nat)
    ensures IsTree(Ladder(names, n))
  {
  }

  /** How far down the segments lead on a ladder. */
  function Net(segs: seq<string>): (d: int)
    ensures -|segs| <= d <= |segs|
  {
    if segs == [] then 0
    else (if segs[0] == "" || segs[0] == "." then 0 else if segs[0] == ".." then -1 else 1) + Net(segs[1..])
  }

  lemma {:induction false} LadderStep(names: set<string>, n: nat, cur: Id, seg: string, links: nat)
    requires 0 < cur < n && seg in names
    ensures Step(Ladder(names, n), cur, seg, links) ==
            Some(Place(if seg == "" || seg == "." then cur else if seg == ".." then cur - 1 else cur + 1, links))
  {
    var fs := Ladder(names, n);
    assert fs.nodes[cur] == Rung(names, n, cur);
    assert cur + 1 in fs.nodes;
    hide Walk, Segments;
  }

  lemma {:induction false} LadderWalk(names: set<string>, n: nat, cur: Id, segs: seq<string>, links: nat)
    requires |segs| <= cur && cur + |segs| <= n && forall seg :: seg in segs ==> seg in names
    ensures Walk(Ladder(names, n), cur, segs, links) == Some(Place(cur + Net(segs), links))
    decreases |segs|
  {
    if segs != [] {
      LadderStep(names, n, cur, segs[0], links);
      hide Step, Ladder;
      var p := Step(Ladder(names, n), cur, segs[0], links).value;
      assert forall seg :: seg in segs[1..] ==> seg in segs;
      LadderWalk(names, n, p.node, segs[1..], links);
      assert p.node + Net(segs[1..]) == cur + Net(segs);
    }
  }

  /** Cancelling nothing where the kernel goes up leaves the stack deeper than the walk. */
  lemma {:induction false} StackDepth(w: Setting, parts: seq<string>, segs: seq<string>)
    requires PushAll(w, parts, segs).Some?
    ensures var out := PushAll(w, parts, segs).value;
            && |out| <= |parts| + |segs| && (forall seg :: seg in out ==> seg in parts || seg in segs)
            && |out| >= |parts| + Net(segs)
            && (Climbs(|parts|, segs) ==> |out| > |parts| + Net(segs))
    decreases |segs|
  {
    if segs != [] {
      PushClimbs(w, parts, segs);
      hide Sticky, Climbs;
      StackDepth(w, Push(w, parts, segs[0]).value, segs[1..]);
    }
  }

  lemma {:induction false} NetOfPlain(parts: seq<string>)
    requires PlainParts(parts)
    ensures Net(parts) == |parts|
  {
    if parts != [] {
      assert Plain(parts[0]);
      NetOfPlain(parts[1..]);
    }
  }

  /** What the collapse accepts in some tree it accepts in a tree without links, alike. */
  lemma {:induction false} LadderCollapse(w: Setting, w': Setting, parts: seq<string>, segs: seq<string>)
    requires w.absolute == w'.absolute && forall i :: i in w'.fs.nodes ==> w'.fs.nodes[i].Dir?
    requires PushAll(w, parts, segs).Some?
    ensures PushAll(w', parts, segs) == PushAll(w, parts, segs)
    decreases |segs|
  {
    if segs != [] {
      hide Walk, Join;
      assert Push(w', parts, segs[0]) == Push(w, parts, segs[0]);
      LadderCollapse(w, w', Push(w, parts, segs[0]).value, segs[1..]);
    }
  }

  /** The tree on which a climbing path and its collapse lead to different directories. */
  function Witness(path: string): (fs: Tree)
  {
    var segs := Segments(path);
    Ladder(set seg | seg in segs, 2 * |segs|)
  }

  /** From the middle of the ladder the kernel ends above where the stack leads. */
  lemma {:induction false} LadderDiffers(w: Setting, segs: seq<string>, links: nat)
    requires PushAll(w, [], segs).Some? && Climbs(0, segs) && forall seg :: seg in segs ==> '/' !in seg
    ensures var t, out := Ladder(set seg | seg in segs, 2 * |segs|), PushAll(w, [], segs).value;
            && Walk(t, |segs|, segs, links).Some? && Walk(t, |segs|, out, links).Some?
            && Walk(t, |segs|, segs, links) != Walk(t, |segs|, out, links)
  {
    var names, n := set seg | seg in segs, |segs|;
    hide Climbs, Walk, PushAll, Net, Ladder;
    StackDepth(w, [], segs);
    PushAllPlain(w, [], segs);
    var out := PushAll(w, [], segs).value;
    LadderWalk(names, 2 * n, n, segs, links);
    LadderWalk(names, 2 * n, n, out, links);
    NetOfPlain(out);
  }

  /** When the walk and the stack lead to different places, the meaning is lost. */
  lemma {:induction false} StackElsewhere(fs: Tree, cwd: Id, path: string, links: nat)
    requires IsTree(fs) && cwd in fs.nodes && fs.nodes[cwd].Dir?
    requires !Absolute(path) && Collapse(fs, cwd, path, links).Some?
    requires var segs := Segments(path);
             var out := PushAll(At(fs, cwd, path, links), [], segs).value;
             && Walk(fs, cwd, segs, links).Some? && Walk(fs, cwd, out, links).Some?
             && Walk(fs, cwd, segs, links) != Walk(fs, cwd, out, links)
    ensures Resolve(fs, cwd, path, links).Some?
    ensures Resolve(fs, cwd, Collapse(fs, cwd, path, links).value, links).Some?
    ensures !KeepsMeaning(fs, cwd, path, links)
  {
    var w := At(fs, cwd, path, links);
    hide Walk, Segments, Join, IsTree, PushAll;
    PushAllPlain(w, [], Segments(path));
    JoinedResolves(w, cwd, PushAll(w, [], Segments(path)).value);
  }

  lemma {:induction false} ClimbingLosesMeaning(fs: Tree, cwd: Id, path: string, links: nat)
    requires !StaysBelow(path) && Collapse(fs, cwd, path, links).Some?
    ensures var t, at := Witness(path), |Segments(path)|;
            && IsTree(t) && Collapse(t, at, path, links) == Collapse(fs, cwd, path, links)
            && Resolve(t, at, path, links).Some?
            && Resolve(t, at, Collapse(t, at, path, links).value, links).Some?
            && !KeepsMeaning(t, at, path, links)
  {
    var segs, t := Segments(path), Witness(path);
    LadderIsTree(set seg | seg in segs, 2 * |segs|);
    assert |segs| in t.nodes;
    hide Climbs, Walk, Segments, Join, IsTree, PushAll, Ladder, KeepsMeaning, Resolve;
    LadderCollapse(At(fs, cwd, path, links), At(t, |segs|, path, links), [], segs);
    LadderDiffers(At(t, |segs|, path, links), segs, links);
    StackElsewhere(t, |segs|, path, links);
  }

  /** For a path the collapse accepts somewhere: its meaning is kept everywhere or it climbs. */
  lemma {:induction false} MeaningKeptExactly(fs: Tree, cwd: Id, path: string, links: nat)
    requires Collapse(fs, cwd, path, links).Some?
    ensures StaysBelow(path) <==> forall t: Tree, at: Id :: KeepsMeaning(t, at, path, links)
  {
    hide StaysBelow, KeepsMeaning, Collapse, Witness;
    if StaysBelow(path) {
      forall t: Tree, at: Id ensures KeepsMeaning(t, at, path, links) {
        CollapsePreservesMeaning(t, at, path, links);
      }
    } else {
      ClimbingLosesMeaning(fs, cwd, path, links);
    }
  }

  // ------------------------------------------------------ what is accepted

  /** The names left when every `..` takes back the last one, links or not. */
  function Kept(segs: seq<string>): (parts: seq<string>)
    ensures |parts| <= |segs|
  {
    if segs == [] then []
    else
      var before, seg := Kept(segs[..|segs| - 1]), segs[|segs| - 1];
      if seg == "" || seg == "." then before
      else if seg != ".." then before + [seg]
      else if before == [] then []
      else before[..|before| - 1]
  }

  /** Walking to the parts leads to a directory in which the last of them is the name of a link. */
  ghost predicate LeadsToLink(fs: Tree, from: Id, parts: seq<string>, links: nat)
  {
    && parts != []
    && var d := Walk(fs, from, parts[..|parts| - 1], links);
       && d.Some? && d.value.node in fs.nodes
       && match fs.nodes[d.value.node] {
            case Dir(entries) =>
              && parts[|parts| - 1] in entries && entries[parts[|parts| - 1]] in fs.nodes
              && fs.nodes[entries[parts[|parts| - 1]]].Link?
            case _ => false
          }
  }

  /** The `k`-th segment is a `..` that would take back a link. */
  ghost predicate CancelsLink(fs: Tree, from: Id, segs: seq<string>, links: nat, k: nat)
    requires k < |segs|
  {
    segs[k] == ".." && LeadsToLink(fs, from, Kept(segs[..k]), links)
  }

  ghost predicate Cancels(fs: Tree, from: Id, segs: seq<string>, links: nat)
  {
    exists k: nat :: k < |segs| && CancelsLink(fs, from, segs, links, k)
  }

  /** Bytes of the segments with one slash each. */
  function Len(segs: seq<string>): (n: nat)
  {
    if segs == [] then 0 else Len(segs[..|segs| - 1]) + |segs[|segs| - 1]| + 1
  }

  lemma {:induction false} LenCons(seg: string, segs: seq<string>)
    ensures Len([seg] + segs) == |seg| + 1 + Len(segs)
  {
    var all := [seg] + segs;
    if segs == [] {
      assert all[..0] == [];
    } else {
      LenCons(seg, segs[..|segs| - 1]);
      assert all[..|all| - 1] == [seg] + segs[..|segs| - 1];
    }
  }

  lemma {:induction false} LenPrefix(segs: seq<string>, k: nat)
    requires k <= |segs|
    ensures Len(segs[..k]) <= Len(segs)
    decreases |segs|
  {
    if k < |segs| {
      LenPrefix(segs[..|segs| - 1], k);
      assert segs[..|segs| - 1][..k] == segs[..k];
    } else {
      assert segs[..k] == segs;
    }
  }

  lemma {:induction false} LenOfSegments(s: string)
    ensures Len(Segments(s)) == |s| + 1
    decreases |s|
  {
    var k := IndexOfSlash(s);
    SegmentsUnfold(s, k);
    var rest := if k < |s| then Segments(s[k + 1..]) else [];
    assert k == |s| ==> s[..k] == s && Len(rest) == 0;
    hide Segments, IndexOfSlash, Len;
    if k < |s| { LenOfSegments(s[k + 1..]); }
    LenCons(s[..k], rest);
  }

  /** The names left are never longer than the segments, and each takes at least two bytes. */
  lemma {:induction false} KeptIsShort(segs: seq<string>)
    requires forall seg :: seg in segs ==> '/' !in seg
    ensures PlainParts(Kept(segs)) && Len(Kept(segs)) <= Len(segs) && 2 * |Kept(segs)| <= Len(Kept(segs))
    decreases |segs|
  {
    if segs != [] {
      var n := |segs| - 1;
      assert forall seg :: seg in segs[..n] ==> seg in segs;
      KeptIsShort(segs[..n]);
      var before := Kept(segs[..n]);
      KeptStep(before, segs[n]);
    }
  }

  lemma {:induction false} KeptStep(before: seq<string>, seg: string)
    requires PlainParts(before) && '/' !in seg && 2 * |before| <= Len(before)
    ensures seg != "" && seg != "." && seg != ".." ==>
              && PlainParts(before + [seg]) && Len(before + [seg]) == Len(before) + |seg| + 1
              && 2 * |before + [seg]| <= Len(before + [seg])
    ensures before != [] ==>
              var b := before[..|before| - 1];
              PlainParts(b) && Len(b) <= Len(before) && 2 * |b| <= Len(b)
  {
    assert (before + [seg])[..|before|] == before;
    if before != [] {
      LenPrefix(before, |before| - 1);
      TwoEach(before[..|before| - 1]);
    }
  }

  lemma {:induction false} TwoEach(parts: seq<string>)
    requires PlainParts(parts)
    ensures 2 * |parts| <= Len(parts)
  {
    if parts != [] {
      assert Plain(parts[|parts| - 1]);
      TwoEach(parts[..|parts| - 1]);
    }
  }

  lemma {:induction false} JoinLength(parts: seq<string>, absolute: bool)
    ensures |JoinTail(parts)| == Len(parts)
    ensures |Join(parts, absolute)| == if parts == [] then 1 else if absolute then Len(parts) else Len(parts) - 1
  {
    if parts != [] { JoinLength(parts[..|parts| - 1], absolute); }
  }

  /** The path below which a stack of parts stays is short enough for every guard on lengths. */
  lemma {:induction false} NeverTooLong(path: string, k: nat)
    requires path != "" && |path| < PATH_MAX && k <= |Segments(Tail(path))|
    ensures var parts := Kept(Segments(Tail(path))[..k]);
            && PlainParts(parts) && |Join(parts, Absolute(path))| < PATH_MAX
            && (k < |Segments(Tail(path))| && Plain(Segments(Tail(path))[k]) ==> |parts| < PATH_MAX / 2)
  {
    var segs := Segments(Tail(path));
    LenOfSegments(Tail(path));
    assert |Tail(path)| <= |path| - (if Absolute(path) then 1 else 0);
    hide *;
    LenPrefix(segs, k);
    assert forall seg :: seg in segs[..k] ==> seg in segs;
    KeptIsShort(segs[..k]);
    JoinLength(Kept(segs[..k]), Absolute(path));
    if k < |segs| && Plain(segs[k]) { LenNext(segs, k); }
  }

  lemma {:induction false} LenNext(segs: seq<string>, k: nat)
    requires k < |segs| && Plain(segs[k])
    ensures Len(segs[..k]) + 2 <= Len(segs)
  {
    LenPrefix(segs, k + 1);
    assert segs[..k + 1][..k] == segs[..k];
  }

  /** From any segment on, the stack holds the names left, unless a link is in the way. */
  lemma {:induction false} PushAllExactly(w: Setting, path: string, k: nat)
    requires path != "" && |path| < PATH_MAX && k <= |Segments(Tail(path))| && w.absolute == Absolute(path)
    ensures var segs := Segments(Tail(path));
            PushAll(w, Kept(segs[..k]), segs[k..]) ==
              if exists j :: k <= j < |segs| && CancelsLink(w.fs, w.from, segs, w.links, j) then None
                   else Some(Kept(segs))
    decreases |Segments(Tail(path))| - k
  {
    var segs := Segments(Tail(path));
    PushAllStep(w, Kept(segs[..k]), segs, k);
    hide *;
    if k == |segs| {
      assert segs[..k] == segs;
    } else {
      PushExactly(w, path, k);
      PushAllExactly(w, path, k + 1);
    }
  }

  lemma {:induction false} PushAllStep(w: Setting, parts: seq<string>, segs: seq<string>, k: nat)
    requires k <= |segs|
    ensures PushAll(w, parts, segs[k..]) ==
              if k == |segs| then Some(parts)
              else if Push(w, parts, segs[k]).None? then None
              else PushAll(w, Push(w, parts, segs[k]).value, segs[k + 1..])
  {
    hide Push;
    if k < |segs| { assert segs[k..][0] == segs[k] && segs[k..][1..] == segs[k + 1..]; }
  }

  lemma {:induction false} PushExactly(w: Setting, path: string, k: nat)
    requires path != "" && |path| < PATH_MAX && k < |Segments(Tail(path))| && w.absolute == Absolute(path)
    ensures var segs := Segments(Tail(path));
            Push(w, Kept(segs[..k]), segs[k]) ==
              if CancelsLink(w.fs, w.from, segs, w.links, k) then None else Some(Kept(segs[..k + 1]))
  {
    var segs := Segments(Tail(path));
    NeverTooLong(path, k);
    assert '/' !in segs[k];
    assert segs[..k + 1][..k] == segs[..k];
    hide Segments, Walk, Join;
  }

  /**
   * The collapse refuses a path if and only if it is empty, does not fit its buffer, or has a `..`
   * that would take back a link. Otherwise it yields the names left, so its guards on the length
   * of the probe, of the result and of the stack never strike.
   */
  lemma {:induction false} CollapseExactly(fs: Tree, cwd: Id, path: string, links: nat)
    ensures var from := if Absolute(path) then 0 else cwd;
            var segs := Segments(Tail(path));
            && (Collapse(fs, cwd, path, links).None? <==>
                  path == "" || |path| >= PATH_MAX || Cancels(fs, from, segs, links))
            && (Collapse(fs, cwd, path, links).Some? ==>
                  var out := Collapse(fs, cwd, path, links).value;
                  && (Absolute(out) <==> Absolute(path))
                  && if Kept(segs) == [] then out == (if Absolute(path) then "/" else ".")
                     else Segments(Tail(out)) == Kept(segs))
  {
    if path != "" && |path| < PATH_MAX {
      var segs := Segments(Tail(path));
      PushAllExactly(At(fs, cwd, path, links), path, 0);
      assert segs[..0] == [] && segs[0..] == segs;
      NeverTooLong(path, |segs|);
      assert segs[..|segs|] == segs;
      hide Segments, PushAll, JoinTail;
      JoinedPath(Kept(segs), Absolute(path));
    }
  }

  /** In a tree without links every path that fits the buffer is accepted. */
  lemma {:induction false} NoLinksNoRefusal(fs: Tree, cwd: Id, path: string, links: nat)
    requires forall i :: i in fs.nodes ==> !fs.nodes[i].Link?
    requires 0 < |path| < PATH_MAX
    ensures Collapse(fs, cwd, path, links).Some?
  {
    CollapseExactly(fs, cwd, path, links);
    hide Collapse, Walk, Segments, Kept;
  }

  // ------------------------------------------------------ shape and idempotence

  /** The result is the root, the working directory, or its segments are all plain names. */
  lemma {:induction false} CollapsedIsPlain(fs: Tree, cwd: Id, path: string, links: nat)
    requires Collapse(fs, cwd, path, links).Some?
    ensures var out := Collapse(fs, cwd, path, links).value;
            && (Absolute(out) <==> Absolute(path))
            && (out == "/" || out == "." || PlainParts(Segments(Tail(out))))
  {
    var w := At(fs, cwd, path, links);
    PushAllPlain(w, [], Segments(Tail(path)));
    hide Segments, PushAll, JoinTail;
    JoinedPath(PushAll(w, [], Segments(Tail(path))).value, w.absolute);
  }

  lemma {:induction false} PushAllOfPlain(w: Setting, parts: seq<string>, segs: seq<string>)
    requires PlainParts(segs) && |parts| + |segs| <= PATH_MAX / 2
    ensures PushAll(w, parts, segs) == Some(parts + segs)
    decreases |segs|
  {
    if segs == [] {
      assert parts + segs == parts;
    } else {
      assert Plain(segs[0]);
      hide Sticky;
      assert Push(w, parts, segs[0]) == Some(parts + [segs[0]]);
      assert parts + [segs[0]] + segs[1..] == parts + segs;
      PushAllOfPlain(w, parts + [segs[0]], segs[1..]);
    }
  }

  /** Collapsing twice is collapsing once, anywhere and even after the tree has changed. */
  lemma {:induction false} CollapseIdempotent(fs: Tree, cwd: Id, fs': Tree, cwd': Id, path: string, links: nat)
    requires Collapse(fs, cwd, path, links).Some?
    ensures Collapse(fs', cwd', Collapse(fs, cwd, path, links).value, links) == Collapse(fs, cwd, path, links)
  {
    var w := At(fs, cwd, path, links);
    PushAllPlain(w, [], Segments(Tail(path)));
    var parts := PushAll(w, [], Segments(Tail(path))).value;
    var out := Join(parts, w.absolute);
    var w' := At(fs', cwd', out, links);
    hide Segments, JoinTail, Sticky, Join;
    JoinedPath(parts, w.absolute);
    if parts == [] {
      StackStays(w', Segments(Tail(out))[0]);
    } else {
      PushAllOfPlain(w', [], parts);
      assert [] + parts == parts;
    }
  }

  lemma {:induction false} StackStays(w: Setting, seg: string)
    requires seg == "" || seg == "."
    ensures PushAll(w, [], [seg]) == Some([])
  {
    assert PushAll(w, [], [seg][1..]) == Some([]);
  }

  // ---------------------------------------------------------------- the method

  /** The scan of the source: cuts segments off the front and keeps the stack of parts. */
  method LexicalCollapse(fs: Tree, cwd: Id, path: string, links: nat) returns (out: Option<string>)
    ensures out == Collapse(fs, cwd, path, links)
  {
    if path == "" || |path| >= PATH_MAX { return None; }
    hide Walk, Sticky, Join;
    var absolute := path[0] == '/';
    var w := Setting(fs, if absolute then 0 else cwd, absolute, links);
    var parts: seq<string> := [];
    var cur := if absolute then path[1..] else path;
    var atEnd := false;
    while !atEnd
      invariant !atEnd ==> PushAll(w, [], Segments(Tail(path))) == PushAll(w, parts, Segments(cur))
      invariant atEnd ==> PushAll(w, [], Segments(Tail(path))) == Some(parts)
      decreases !atEnd, |cur|
    {
      var k := 0;
      while k < |cur| && cur[k] != '/'
        invariant k <= |cur| && forall i :: 0 <= i < k ==> cur[i] != '/'
      {
        k := k + 1;
      }
      SegmentsUnfold(cur, k);
      hide Segments, Push;
      var seg := cur[..k];
      var p := PushSegment(w, parts, seg);
      if p.None? { return None; }
      parts := p.value;
      if k == |cur| { atEnd := true; } else { cur := cur[k + 1..]; }
    }
    out := JoinParts(parts, absolute);
  }

  method PushSegment(w: Setting, parts: seq<string>, seg: string) returns (r: Option<seq<string>>)
    ensures r == Push(w, parts, seg)
  {
    if seg == "" || seg == "." { return Some(parts); }
    if seg == ".." {
      if |parts| > 0 {
        if Sticky(w, parts) { return None; }
        return Some(parts[..|parts| - 1]);
      }
      return Some(parts);
    }
    if |parts| >= PATH_MAX / 2 { return None; }
    r := Some(parts + [seg]);
  }

  method JoinParts(parts: seq<string>, absolute: bool) returns (out: Option<string>)
    ensures out == if |Join(parts, absolute)| >= PATH_MAX then None else Some(Join(parts, absolute))
  {
    if parts == [] { return Some(if absolute then "/" else "."); }
    var s := if absolute then "/" else "";
    for i := 0 to |parts|
      invariant s == if i > 0 then Join(parts[..i], absolute) else if absolute then "/" else ""
    {
      assert parts[..i + 1][..i] == parts[..i];
      if i > 0 { s := s + "/"; }
      s := s + parts[i];
    }
    assert parts[..|parts|] == parts;
    out := if |s| >= PATH_MAX then None else Some(s);
  }
}
