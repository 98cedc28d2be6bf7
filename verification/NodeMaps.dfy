/** The map from paths to nodes that a file table with a node for each entry describes. */
module NodeMaps {
  import opened Limits
  import opened BkfsState
  import opened FileTable
  import opened Paths
  import opened TreeModel

  lemma PathsDiffer(files: seq<Entry>)
    requires FilesInv(files)
    ensures forall i: nat, j: nat | ROOT_INDEX <= i < |files| && ROOT_INDEX <= j < |files| ::
              PathAt(files, i) == PathAt(files, j) ==> i == j
  {
    forall i: nat, j: nat | ROOT_INDEX <= i < |files| && ROOT_INDEX <= j < |files| && PathAt(files, i) == PathAt(files, j)
      ensures i == j
    {
      PathInjective(files, i, j);
    }
  }

  /** Node `i` of the list is what entry `i` stands for; the ghosts stand for nothing. */
  ghost function NodeMap(files: seq<Entry>, list: seq<Node>): map<Path, Node>
    requires FilesInv(files) && |list| == |files|
  {
    PathsDiffer(files);
    map i: nat | ROOT_INDEX <= i < |files| :: PathAt(files, i) := list[i]
  }

  lemma MapHas(files: seq<Entry>, list: seq<Node>, i: nat)
    requires FilesInv(files) && |list| == |files| && ROOT_INDEX <= i < |files|
    ensures PathAt(files, i) in NodeMap(files, list) && NodeMap(files, list)[PathAt(files, i)] == list[i]
  {
    PathsDiffer(files);
  }

  ghost predicate IsPath(files: seq<Entry>, p: Path)
    requires FilesInv(files)
  {
    exists i: nat :: ROOT_INDEX <= i < |files| && PathAt(files, i) == p
  }

  lemma MapDomain(files: seq<Entry>, list: seq<Node>, p: Path)
    requires FilesInv(files) && |list| == |files|
    ensures p in NodeMap(files, list) <==> IsPath(files, p)
  {
  }

  lemma MapFrom(files: seq<Entry>, list: seq<Node>, p: Path) returns (i: nat)
    requires FilesInv(files) && |list| == |files| && p in NodeMap(files, list)
    ensures ROOT_INDEX <= i < |files| && PathAt(files, i) == p
  {
    MapDomain(files, list, p);
    i :| ROOT_INDEX <= i < |files| && PathAt(files, i) == p;
  }

  lemma MapIsAt(files: seq<Entry>, list: seq<Node>, m: map<Path, Node>, p: Path)
    requires FilesInv(files) && |list| == |files|
    requires forall i: nat :: ROOT_INDEX <= i < |files| ==> PathAt(files, i) in m && m[PathAt(files, i)] == list[i]
    requires p in NodeMap(files, list)
    ensures p in m && m[p] == NodeMap(files, list)[p]
  {
    var i := MapFrom(files, list, p);
    MapHas(files, list, i);
  }

  lemma MapsEqual(m: map<Path, Node>, n: map<Path, Node>)
    requires forall p :: p in n ==> p in m && m[p] == n[p]
    requires forall p :: p in m ==> p in n
    ensures m == n
  {
  }

  lemma MapIs(files: seq<Entry>, list: seq<Node>, m: map<Path, Node>)
    requires FilesInv(files) && |list| == |files|
    requires forall i: nat :: ROOT_INDEX <= i < |files| ==> PathAt(files, i) in m && m[PathAt(files, i)] == list[i]
    requires forall p :: p in m ==> IsPath(files, p)
    ensures NodeMap(files, list) == m
  {
    var n := NodeMap(files, list);
    forall p | p in n
      ensures p in m && m[p] == n[p]
    {
      MapIsAt(files, list, m, p);
    }
    forall p | p in m
      ensures p in n
    {
      MapDomain(files, list, p);
    }
    MapsEqual(m, n);
  }

  ghost function PathSet(files: seq<Entry>, n: nat): set<Path>
    requires FilesInv(files) && n <= |files|
  {
    if n <= ROOT_INDEX then {} else PathSet(files, n - 1) + {PathAt(files, n - 1)}
  }

  lemma {:induction false} PathSetFrom(files: seq<Entry>, n: nat, p: Path) returns (i: nat)
    requires FilesInv(files) && n <= |files| && p in PathSet(files, n)
    ensures ROOT_INDEX <= i < n && PathAt(files, i) == p
    decreases n
  {
    if p == PathAt(files, n - 1) {
      i := n - 1;
    } else {
      i := PathSetFrom(files, n - 1, p);
    }
  }

  lemma {:induction false} PathSetHas(files: seq<Entry>, n: nat, i: nat)
    requires FilesInv(files) && ROOT_INDEX <= i < n <= |files|
    ensures PathAt(files, i) in PathSet(files, n)
    decreases n
  {
    if i < n - 1 {
      PathSetHas(files, n - 1, i);
    }
  }

  lemma {:induction false} CountPaths(files: seq<Entry>, n: nat)
    requires FilesInv(files) && ROOT_INDEX <= n <= |files|
    ensures |PathSet(files, n)| == n - GHOST_ENTRIES
    decreases n
  {
    if n > ROOT_INDEX {
      CountPaths(files, n - 1);
      NewPath(files, n - 1);
      AddOne(PathSet(files, n - 1), PathAt(files, n - 1));
    }
  }

  lemma AddOne(s: set<Path>, p: Path)
    requires p !in s
    ensures |s + {p}| == |s| + 1
  {
  }

  lemma NewPath(files: seq<Entry>, n: nat)
    requires FilesInv(files) && ROOT_INDEX <= n < |files|
    ensures PathAt(files, n) !in PathSet(files, n)
  {
    if PathAt(files, n) in PathSet(files, n) {
      var i := PathSetFrom(files, n, PathAt(files, n));
      PathInjective(files, i, n);
    }
  }

  lemma MapSize(files: seq<Entry>, list: seq<Node>)
    requires FilesInv(files) && |list| == |files|
    ensures |NodeMap(files, list)| == |files| - GHOST_ENTRIES
  {
    CountPaths(files, |files|);
    var m := NodeMap(files, list);
    forall p: Path
      ensures p in m.Keys <==> p in PathSet(files, |files|)
    {
      if p in PathSet(files, |files|) {
        var i := PathSetFrom(files, |files|, p);
        MapHas(files, list, i);
      }
      if p in m {
        var i := MapFrom(files, list, p);
        PathSetHas(files, |files|, i);
      }
    }
    assert m.Keys == PathSet(files, |files|);
  }

  lemma GrownPath(files: seq<Entry>, list: seq<Node>, e: Entry, i: nat)
    requires FilesInv(files) && |list| == |files| && FilesInv(files + [e]) && ROOT_INDEX <= i < |files|
    ensures var p := PathAt(files + [e], i);
            p in NodeMap(files, list) && NodeMap(files, list)[p] == list[i] && p != PathAt(files + [e], |files|)
  {
    PathAppend(files, e, i);
    MapHas(files, list, i);
    if PathAt(files + [e], i) == PathAt(files + [e], |files|) {
      PathInjective(files + [e], i, |files|);
    }
  }

  lemma StaysPath(files: seq<Entry>, list: seq<Node>, e: Entry, p: Path)
    requires FilesInv(files) && |list| == |files| && FilesInv(files + [e]) && p in NodeMap(files, list)
    ensures IsPath(files + [e], p)
  {
    var i := MapFrom(files, list, p);
    PathAppend(files, e, i);
    assert PathAt(files + [e], i) == p;
  }

  lemma ShrunkPath(files: seq<Entry>, list: seq<Node>, d: nat, gone: seq<Entry>, i: nat)
    requires FilesInv(files) && |list| == |files|
    requires ROOT_INDEX < d < |files| && Childless(files, files[d].inode)
    requires gone == RemoveAt(files, d) && FilesInv(gone) && ROOT_INDEX <= i < |files| && i != d
    ensures var p := PathAt(gone, IndexAfter(d, i));
            p in NodeMap(files, list) && NodeMap(files, list)[p] == list[i] && p != PathAt(files, d)
  {
    PathRemove(files, gone, d, i);
    MapHas(files, list, i);
    if PathAt(files, i) == PathAt(files, d) {
      PathInjective(files, i, d);
    }
  }

  /** One more entry at the end is one more node. */
  lemma MapGrow(files: seq<Entry>, list: seq<Node>, e: Entry, node: Node)
    requires FilesInv(files) && |list| == |files| && FilesInv(files + [e])
    ensures NodeMap(files + [e], list + [node]) == NodeMap(files, list)[PathAt(files + [e], |files|) := node]
  {
    var more, longer := files + [e], list + [node];
    var m := GrownMap(files, list, e, node);
    forall i: nat | ROOT_INDEX <= i < |more|
      ensures PathAt(more, i) in m && m[PathAt(more, i)] == longer[i]
    {
      GrownNode(files, list, e, node, i);
    }
    forall p | p in m
      ensures IsPath(more, p)
    {
      GrownDomain(files, list, e, node, p);
    }
    MapIs(more, longer, m);
  }

  ghost function GrownMap(files: seq<Entry>, list: seq<Node>, e: Entry, node: Node): map<Path, Node>
    requires FilesInv(files) && |list| == |files| && FilesInv(files + [e])
  {
    NodeMap(files, list)[PathAt(files + [e], |files|) := node]
  }

  lemma GrownNode(files: seq<Entry>, list: seq<Node>, e: Entry, node: Node, i: nat)
    requires FilesInv(files) && |list| == |files| && FilesInv(files + [e]) && ROOT_INDEX <= i <= |files|
    ensures var p, m := PathAt(files + [e], i), GrownMap(files, list, e, node);
            p in m && m[p] == (list + [node])[i]
  {
    if i < |files| {
      GrownPath(files, list, e, i);
    }
  }

  lemma GrownDomain(files: seq<Entry>, list: seq<Node>, e: Entry, node: Node, p: Path)
    requires FilesInv(files) && |list| == |files| && FilesInv(files + [e]) && p in GrownMap(files, list, e, node)
    ensures IsPath(files + [e], p)
  {
    if p == PathAt(files + [e], |files|) {
      PathIsPath(files + [e], |files|);
    } else {
      StaysPath(files, list, e, p);
    }
  }

  lemma PathIsPath(files: seq<Entry>, i: nat)
    requires FilesInv(files) && ROOT_INDEX <= i < |files|
    ensures IsPath(files, PathAt(files, i))
  {
  }

  lemma SurvivesPath(files: seq<Entry>, list: seq<Node>, d: nat, gone: seq<Entry>, p: Path)
    requires FilesInv(files) && |list| == |files|
    requires ROOT_INDEX < d < |files| && Childless(files, files[d].inode)
    requires gone == RemoveAt(files, d) && FilesInv(gone)
    requires p in NodeMap(files, list) && p != PathAt(files, d)
    ensures IsPath(gone, p)
  {
    var i := MapFrom(files, list, p);
    PathRemove(files, gone, d, i);
    PathIsPath(gone, IndexAfter(d, i));
  }

  /** A childless entry less is its node less. */
  lemma MapShrink(files: seq<Entry>, list: seq<Node>, d: nat, gone: seq<Entry>, rest: seq<Node>)
    requires FilesInv(files) && |list| == |files|
    requires ROOT_INDEX < d < |files| && Childless(files, files[d].inode)
    requires gone == RemoveAt(files, d) && FilesInv(gone)
    requires |rest| == |gone|
    requires forall i: nat :: ROOT_INDEX <= i < |files| && i != d ==> rest[IndexAfter(d, i)] == list[i]
    ensures NodeMap(gone, rest) == NodeMap(files, list) - {PathAt(files, d)}
  {
    var m := NodeMap(files, list) - {PathAt(files, d)};
    forall i': nat | ROOT_INDEX <= i' < |gone|
      ensures PathAt(gone, i') in m && m[PathAt(gone, i')] == rest[i']
    {
      var i := if i' < d then i' else i' + 1;
      assert IndexAfter(d, i) == i';
      ShrunkPath(files, list, d, gone, i);
    }
    forall p | p in m
      ensures IsPath(gone, p)
    {
      SurvivesPath(files, list, d, gone, p);
    }
    MapIs(gone, rest, m);
  }

  lemma MapChange(files: seq<Entry>, list: seq<Node>, j: nat, node: Node)
    requires FilesInv(files) && |list| == |files| && ROOT_INDEX <= j < |files|
    ensures NodeMap(files, list[j := node]) == NodeMap(files, list)[PathAt(files, j) := node]
  {
    var m := NodeMap(files, list)[PathAt(files, j) := node];
    MapHas(files, list, j);
    forall i: nat | ROOT_INDEX <= i < |files|
      ensures PathAt(files, i) in m && m[PathAt(files, i)] == list[j := node][i]
    {
      MapHas(files, list, i);
      if PathAt(files, i) == PathAt(files, j) {
        PathInjective(files, i, j);
      }
    }
    forall p | p in m
      ensures IsPath(files, p)
    {
      if p != PathAt(files, j) {
        var i := MapFrom(files, list, p);
      }
    }
    MapIs(files, list[j := node], m);
  }
}
