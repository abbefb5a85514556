/**
 * The mount tree of MountableFilesystem.cpp on the heap. Directories hold vectors of child
 * pointers; `Mount` walks down and appends, `Unmount` recurses and deletes, `GetFS` walks
 * with the best match so far. Each step is tied to `MountLaws` through the ghost map `at`,
 * which gives every live node its position.
 */
module MountTree {
  import opened Text
  import opened Paths
  import opened MountLaws

  // ----- Positions -----

  function Child(p: Path, name: string): (c: Path)
    ensures c != [] && Up(c) == p && Last(c) == name
  {
    p + [name]
  }

  function Up(p: Path): Path {
    if p == [] then [] else p[..|p| - 1]
  }

  function Last(p: Path): string {
    if p == [] then "" else p[|p| - 1]
  }

  lemma ChildOfUp(p: Path)
    requires p != []
    ensures Child(Up(p), Last(p)) == p && Leads(Up(p), p) && Up(p) != p && |Up(p)| < |p|
  {
  }

  lemma ChildLeads(p: Path, name: string)
    ensures Leads(p, Child(p, name)) && p != Child(p, name) && !Leads(Child(p, name), p)
  {
  }

  /** The child of `pos` on the way to `q`. */
  lemma Toward(pos: Path, q: Path) returns (name: string)
    requires Leads(pos, q) && q != pos
    ensures Leads(Child(pos, name), q) && |pos| < |q| && name == q[|pos|]
  {
    name := q[|pos|];
  }

  lemma SameChild(pos: Path, a: string, b: string, q: Path)
    requires Leads(Child(pos, a), q) && Leads(Child(pos, b), q)
    ensures a == b
  {
    assert Child(pos, a)[|pos|] == q[|pos|] == Child(pos, b)[|pos|];
  }

  lemma SplitTarget(pos: Path, path: Path)
    requires path != []
    ensures pos + path == Child(pos, path[0]) + path[1..]
    ensures Leads(Child(pos, path[0]), pos + path) && Leads(pos, pos + path)
  {
    assert [path[0]] + path[1..] == path;
  }

  lemma LeadsUp(q: Path, p: Path)
    requires Leads(q, p) && q != p
    ensures Leads(q, Up(p))
  {
  }

  lemma OneMore(pos: Path, path: Path)
    requires path != []
    ensures var c, whole := Child(pos, path[0]), pos + path;
            whole[..|pos| + 1] == c && |c| == |pos| + 1 && whole == c + path[1..] && whole[|pos| + 1..] == path[1..]
  {
    SplitTarget(pos, path);
  }

  // ----- Which nodes an unmount below `pos` removes -----

  ghost predicate PrefixClosed(nodes: set<Path>) {
    [] !in nodes && forall n, q :: n in nodes && q != [] && Leads(q, n) ==> q in nodes
  }

  function Below(nodes: set<Path>, pos: Path, t: Path): set<Path> {
    set q | q in nodes && q != pos && Leads(pos, q) && Leads(q, t) && OnlyTowards(nodes, q, t)
  }

  lemma BelowRoot(nodes: set<Path>, t: Path)
    requires PrefixClosed(nodes)
    ensures Below(nodes, [], t) == Dropped(nodes, t)
  {
    assert forall q :: q in nodes ==> q != [] && Leads([], q);
  }

  lemma BelowSelf(nodes: set<Path>, pos: Path)
    ensures Below(nodes, pos, pos) == {}
  {
    hide Leads, OnlyTowards;
    forall q | q in Below(nodes, pos, pos)
      ensures false
    {
      LeadsBoth(pos, q);
    }
  }

  /** No node on the way: nothing to remove. */
  lemma BelowNothing(nodes: set<Path>, pos: Path, path: Path)
    requires PrefixClosed(nodes) && path != [] && Child(pos, path[0]) !in nodes
    ensures Below(nodes, pos, pos + path) == {}
  {
    hide Leads, OnlyTowards, Child;
    forall q | q in Below(nodes, pos, pos + path)
      ensures false
    {
      StepToward(nodes, pos, path, q);
    }
  }

  lemma StepToward(nodes: set<Path>, pos: Path, path: Path, q: Path)
    requires path != [] && PrefixClosed(nodes)
    requires q in nodes && q != pos && Leads(pos, q) && Leads(q, pos + path)
    ensures Leads(Child(pos, path[0]), q) && Child(pos, path[0]) in nodes
  {
    hide Leads, Child;
    var name := Toward(pos, q);
    LeadsTrans(Child(pos, name), q, pos + path);
    SplitTarget(pos, path);
    SameChild(pos, name, path[0], pos + path);
  }

  /** One step down: the child on the way goes when all below it is on the way. */
  lemma BelowStep(nodes: set<Path>, pos: Path, path: Path)
    requires PrefixClosed(nodes) && path != [] && Child(pos, path[0]) in nodes
    ensures var c, t := Child(pos, path[0]), pos + path;
            Below(nodes, pos, t) == Below(nodes, c, t) + (if OnlyTowards(nodes, c, t) then {c} else {})
  {
    hide Leads, OnlyTowards, Child, PrefixClosed;
    var c, t := Child(pos, path[0]), pos + path;
    SplitTarget(pos, path);
    ChildLeads(pos, path[0]);
    forall q
      ensures q in Below(nodes, pos, t) <==> q in Below(nodes, c, t) || (q == c && OnlyTowards(nodes, c, t))
    {
      if q in Below(nodes, pos, t) {
        StepToward(nodes, pos, path, q);
      }
      if q in Below(nodes, c, t) {
        LeadsTrans(pos, c, q);
        if q == pos {
          LeadsBoth(pos, c);
        }
      }
    }
  }

  lemma OnlyTowardsStep(nodes: set<Path>, pos: Path, path: Path)
    requires PrefixClosed(nodes) && path != [] && Child(pos, path[0]) in nodes
    ensures var c, t := Child(pos, path[0]), pos + path;
            OnlyTowards(nodes, pos, t)
            <==> OnlyTowards(nodes, c, t) && forall name :: Child(pos, name) in nodes ==> name == path[0]
  {
    hide Leads, Child;
    var c, t := Child(pos, path[0]), pos + path;
    SplitTarget(pos, path);
    ChildLeads(pos, path[0]);
    if OnlyTowards(nodes, pos, t) {
      forall n | n in nodes && Leads(c, n)
        ensures Leads(n, t)
      {
        LeadsTrans(pos, c, n);
      }
      forall name | Child(pos, name) in nodes
        ensures name == path[0]
      {
        ChildLeads(pos, name);
        SameChild(pos, name, path[0], t);
      }
    } else if forall name :: Child(pos, name) in nodes ==> name == path[0] {
      var n :| n in nodes && Leads(pos, n) && !Leads(n, t);
      if n != pos {
        var name := Toward(pos, n);
        assert Child(pos, name) in nodes;
      }
    }
  }

  /** A node without children is the only one at or below its position. */
  lemma LeafOnly(nodes: set<Path>, pos: Path, n: Path)
    requires PrefixClosed(nodes) && n in nodes && Leads(pos, n)
    requires forall name :: Child(pos, name) !in nodes
    ensures n == pos
  {
    hide Leads, Child;
    if n != pos {
      var name := Toward(pos, n);
    }
  }

  // ----- The heap -----

  class MountableDirectory {
    const name: string
    var vfs: Option<Vfs>
    var dirs: seq<MountableDirectory>
    /** Set by `delete`. */
    ghost var freed: bool

    constructor (name: string, vfs: Option<Vfs>)
      ensures this.name == name && this.vfs == vfs && dirs == [] && !freed
    {
      this.name := name;
      this.vfs := vfs;
      dirs := [];
      freed := false;
    }

    /** `delete dir`; its destructor would delete the children, and there are none. */
    method Delete()
      requires !freed && dirs == []
      modifies this`freed
      ensures freed
    {
      freed := true;
    }
  }

  type Nodes = map<Path, MountableDirectory>
  type Vectors = map<Path, seq<MountableDirectory>>
  type Filesystems = map<Path, Option<Vfs>>

  function TableOf(fss: Filesystems): Table {
    Table(fss.Keys, map p | p in fss && fss[p].Some? :: fss[p].value)
  }

  function Placed(t: Table, c: Path, fs: Option<Vfs>): Table {
    Table(t.nodes + {c}, match fs case Some(v) => t.mounts[c := v] case None => t.mounts - {c})
  }

  lemma PlacedTable(fss: Filesystems, c: Path, fs: Option<Vfs>)
    ensures TableOf(fss[c := fs]) == Placed(TableOf(fss), c, fs)
    ensures c !in fss ==> Placed(TableOf(fss), c, None) == Table(TableOf(fss).nodes + {c}, TableOf(fss).mounts)
    ensures c in fss ==> Table(TableOf(fss).nodes + {c}, TableOf(fss).mounts) == TableOf(fss)
  {
    var t := TableOf(fss);
    assert TableOf(fss[c := fs]).nodes == t.nodes + {c};
    assert TableOf(fss[c := fs]).mounts == Placed(t, c, fs).mounts;
    if c !in fss {
      assert t.mounts - {c} == t.mounts;
    } else {
      assert t.nodes + {c} == t.nodes;
    }
  }

  /** A node hangs in its parent's vector, under its own name. */
  predicate Hangs(at: Nodes, kids: Vectors, p: Path)
    requires p in at
  {
    at[p].name == Last(p) && Up(p) in kids && at[p] in kids[Up(p)]
  }

  predicate HoldsAt(at: Nodes, p: Path, item: MountableDirectory) {
    Child(p, item.name) in at && at[Child(p, item.name)] == item
  }

  predicate NoRepeats(items: seq<MountableDirectory>) {
    forall i, j :: 0 <= i < j < |items| ==> items[i] != items[j]
  }

  /** A vector holds nodes at the right positions, each once. */
  predicate Holds(at: Nodes, kids: Vectors, p: Path)
    requires p in kids
  {
    NoRepeats(kids[p]) && forall i :: 0 <= i < |kids[p]| ==> HoldsAt(at, p, kids[p][i])
  }

  predicate Unshared(at: Nodes) {
    forall p, q :: p in at && q in at && at[p] == at[q] ==> p == q
  }

  /** The vectors form an unshared tree with unique names at every level. */
  predicate Tree(at: Nodes, kids: Vectors) {
    [] !in at && kids.Keys == at.Keys + {[]} && Unshared(at)
    && (forall p :: p in at ==> Hangs(at, kids, p))
    && (forall p :: p in kids ==> Holds(at, kids, p))
  }

  /** Children of one node have different names. */
  lemma NamesUnique(at: Nodes, kids: Vectors, p: Path, i: nat, j: nat)
    requires Tree(at, kids) && p in kids && i < j < |kids[p]|
    ensures kids[p][i].name != kids[p][j].name
  {
    assert Holds(at, kids, p);
    assert HoldsAt(at, p, kids[p][i]) && HoldsAt(at, p, kids[p][j]);
  }

  /** What the search for a name in a vector means in the tree. */
  lemma FoundChild(at: Nodes, kids: Vectors, p: Path, name: string, index: nat)
    requires Tree(at, kids) && p in kids && index <= |kids[p]|
    requires index < |kids[p]| ==> kids[p][index].name == name
    requires forall i :: 0 <= i < index ==> kids[p][i].name != name
    ensures index < |kids[p]| <==> Child(p, name) in at
    ensures index < |kids[p]| ==> at[Child(p, name)] == kids[p][index]
  {
    hide Child, Up, Last;
    assert Holds(at, kids, p);
    if index < |kids[p]| {
      assert HoldsAt(at, p, kids[p][index]);
    }
    if Child(p, name) in at {
      assert Hangs(at, kids, Child(p, name));
    }
  }

  lemma {:induction false} NodesAreClosed(at: Nodes, kids: Vectors, p: Path, q: Path)
    requires Tree(at, kids) && p in at && q != [] && Leads(q, p)
    ensures q in at
    decreases |p|
  {
    hide Holds, Unshared;
    if q != p {
      ChildOfUp(p);
      assert Hangs(at, kids, p);
      LeadsUp(q, p);
      NodesAreClosed(at, kids, Up(p), q);
    }
  }

  lemma NodesPrefixClosed(at: Nodes, kids: Vectors)
    requires Tree(at, kids)
    ensures PrefixClosed(at.Keys)
  {
    hide Leads, Hangs, Holds, Unshared;
    forall n, q | n in at.Keys && q != [] && Leads(q, n)
      ensures q in at.Keys
    {
      NodesAreClosed(at, kids, n, q);
    }
  }

  lemma TreeKeys(at: Nodes, kids: Vectors)
    requires Tree(at, kids)
    ensures kids.Keys == at.Keys + {[]} && [] !in at
  {
  }

  lemma NotShared(at: Nodes, kids: Vectors, pos: Path)
    requires Tree(at, kids) && pos in at
    ensures forall q :: q in at && at[q] == at[pos] ==> q == pos
  {
  }

  function GrownAt(at: Nodes, pos: Path, item: MountableDirectory): Nodes {
    at[Child(pos, item.name) := item]
  }

  function GrownKids(kids: Vectors, pos: Path, item: MountableDirectory): Vectors
    requires pos in kids
  {
    kids[pos := kids[pos] + [item]][Child(pos, item.name) := []]
  }

  ghost predicate CanGrow(at: Nodes, kids: Vectors, pos: Path, item: MountableDirectory) {
    Tree(at, kids) && pos in kids && Child(pos, item.name) !in at && forall p :: p in at ==> at[p] != item
  }

  lemma GrownHangs(at: Nodes, kids: Vectors, pos: Path, item: MountableDirectory, p: Path)
    requires CanGrow(at, kids, pos, item) && p in GrownAt(at, pos, item)
    ensures Hangs(GrownAt(at, pos, item), GrownKids(kids, pos, item), p)
  {
    hide Child, Up, Last, Holds, Unshared, Leads;
    ChildLeads(pos, item.name);
    if p in at {
      assert Hangs(at, kids, p);
    }
  }

  lemma GrownHolds(at: Nodes, kids: Vectors, pos: Path, item: MountableDirectory, p: Path)
    requires CanGrow(at, kids, pos, item) && p in GrownKids(kids, pos, item)
    ensures Holds(GrownAt(at, pos, item), GrownKids(kids, pos, item), p)
  {
    hide Child, Up, Last, Hangs, Unshared, Leads;
    ChildLeads(pos, item.name);
    if p in at || p == [] {
      assert p in kids && Holds(at, kids, p);
      forall i | 0 <= i < |kids[p]|
        ensures HoldsAt(GrownAt(at, pos, item), p, kids[p][i]) && kids[p][i] != item
      {
        assert HoldsAt(at, p, kids[p][i]);
      }
    }
  }

  lemma GrownParts(at: Nodes, kids: Vectors, pos: Path, item: MountableDirectory)
    requires CanGrow(at, kids, pos, item)
    ensures var c, at', kids' := Child(pos, item.name), GrownAt(at, pos, item), GrownKids(kids, pos, item);
            at'.Keys == at.Keys + {c} && kids'.Keys == kids.Keys + {c} && at'[c] == item && kids'[c] == []
            && kids'[[]] == (if pos == [] then kids[[]] + [item] else kids[[]])
            && forall p :: p in at ==> p in at' && at'[p] == at[p]
                                       && kids'[p] == if p == pos then kids[pos] + [item] else kids[p]
  {
    hide Child, Hangs, Holds, Leads;
    ChildLeads(pos, item.name);
  }

  /** Appending a new leaf keeps the tree. */
  lemma GrowTree(at: Nodes, kids: Vectors, pos: Path, item: MountableDirectory)
    requires CanGrow(at, kids, pos, item)
    ensures Tree(GrownAt(at, pos, item), GrownKids(kids, pos, item))
  {
    hide Child, Up, Last, Hangs, Holds, Leads;
    var at', kids' := GrownAt(at, pos, item), GrownKids(kids, pos, item);
    forall p | p in at'
      ensures Hangs(at', kids', p)
    {
      GrownHangs(at, kids, pos, item, p);
    }
    forall p | p in kids'
      ensures Holds(at', kids', p)
    {
      GrownHolds(at, kids, pos, item, p);
    }
  }

  function Without(items: seq<MountableDirectory>, index: nat): seq<MountableDirectory>
    requires index < |items|
  {
    items[..index] + items[index + 1..]
  }

  ghost predicate CanPrune(at: Nodes, kids: Vectors, pos: Path, index: nat) {
    Tree(at, kids) && pos in kids && index < |kids[pos]|
    && Child(pos, kids[pos][index].name) in kids && kids[Child(pos, kids[pos][index].name)] == []
  }

  function PrunedKids(kids: Vectors, pos: Path, index: nat): Vectors
    requires pos in kids && index < |kids[pos]|
  {
    kids[pos := Without(kids[pos], index)] - {Child(pos, kids[pos][index].name)}
  }

  lemma PrunedHangs(at: Nodes, kids: Vectors, pos: Path, index: nat, p: Path)
    requires CanPrune(at, kids, pos, index)
    requires p in at - {Child(pos, kids[pos][index].name)}
    ensures Hangs(at - {Child(pos, kids[pos][index].name)}, PrunedKids(kids, pos, index), p)
  {
    hide Child, Up, Last, Leads, Without, Unshared;
    var item := kids[pos][index];
    assert Holds(at, kids, pos) && HoldsAt(at, pos, item);
    NotShared(at, kids, Child(pos, item.name));
    ChildLeads(pos, item.name);
    assert Hangs(at, kids, p);
    if Up(p) == pos {
      KeptInRest(kids[pos], index, at[p]);
    }
  }

  lemma PrunedHolds(at: Nodes, kids: Vectors, pos: Path, index: nat, p: Path)
    requires CanPrune(at, kids, pos, index)
    requires p in PrunedKids(kids, pos, index)
    ensures Holds(at - {Child(pos, kids[pos][index].name)}, PrunedKids(kids, pos, index), p)
  {
    hide Child, Up, Last, Leads, Without, Hangs, Unshared;
    var item := kids[pos][index];
    var c := Child(pos, item.name);
    var rest := PrunedKids(kids, pos, index)[p];
    assert Holds(at, kids, p);
    if p == pos {
      assert HoldsAt(at, pos, item);
      RestIsPart(kids[pos], index);
    }
    forall i | 0 <= i < |rest|
      ensures HoldsAt(at - {c}, p, rest[i])
    {
      assert rest[i] in kids[p];
      assert HoldsAt(at, p, rest[i]);
    }
  }

  /** Erasing a leaf keeps the tree. */
  lemma PruneTree(at: Nodes, kids: Vectors, pos: Path, index: nat)
    requires CanPrune(at, kids, pos, index)
    ensures Tree(at - {Child(pos, kids[pos][index].name)}, PrunedKids(kids, pos, index))
  {
    hide Child, Up, Last, Leads, Without, Hangs, Holds;
    var c := Child(pos, kids[pos][index].name);
    var at', kids' := at - {c}, PrunedKids(kids, pos, index);
    ChildLeads(pos, kids[pos][index].name);
    forall p | p in at'
      ensures Hangs(at', kids', p)
    {
      PrunedHangs(at, kids, pos, index, p);
    }
    forall p | p in kids'
      ensures Holds(at', kids', p)
    {
      PrunedHolds(at, kids, pos, index, p);
    }
    assert kids'.Keys == at'.Keys + {[]};
  }

  lemma KeptInRest(items: seq<MountableDirectory>, index: nat, item: MountableDirectory)
    requires index < |items| && item in items && item != items[index]
    ensures item in Without(items, index)
  {
    var k :| 0 <= k < |items| && items[k] == item;
    var rest := Without(items, index);
    assert if k < index then rest[k] == item else rest[k - 1] == item;
  }

  lemma RestIsPart(items: seq<MountableDirectory>, index: nat)
    requires index < |items| && NoRepeats(items)
    ensures var rest := Without(items, index);
            NoRepeats(rest) && forall k :: 0 <= k < |rest| ==> rest[k] in items && rest[k] != items[index]
  {
    var rest := Without(items, index);
    assert forall k :: 0 <= k < |rest| ==> rest[k] == items[if k < index then k else k + 1];
  }

  /** A node without children is a leaf of the positions too. */
  lemma NoKidsNoNodes(at: Nodes, kids: Vectors, pos: Path)
    requires Tree(at, kids) && pos in kids && kids[pos] == []
    ensures forall name :: Child(pos, name) !in at
  {
    hide Child, Up, Last, Holds, Unshared;
    assert forall name :: Child(pos, name) in at ==> Hangs(at, kids, Child(pos, name));
  }

  lemma LeafBelow(at: Nodes, kids: Vectors, pos: Path, t: Path)
    requires Tree(at, kids) && pos in at && kids[pos] == [] && Leads(pos, t)
    ensures Below(at.Keys, pos, t) == {} && OnlyTowards(at.Keys, pos, t)
  {
    hide Child, Leads, Tree;
    TreeKeys(at, kids);
    NoKidsNoNodes(at, kids, pos);
    NodesPrefixClosed(at, kids);
    forall n | n in at.Keys && Leads(pos, n)
      ensures n == pos
    {
      LeafOnly(at.Keys, pos, n);
    }
  }

  /** The child at `index` is the only one when nothing is left without it. */
  lemma OnlyChild(at: Nodes, kids: Vectors, pos: Path, index: nat)
    requires Tree(at, kids) && pos in kids && index < |kids[pos]|
    ensures Without(kids[pos], index) == []
            <==> forall name :: Child(pos, name) in at ==> name == kids[pos][index].name
  {
    hide Child, Up, Last, Unshared, Leads;
    var items := kids[pos];
    assert Holds(at, kids, pos);
    if |items| == 1 {
      forall name | Child(pos, name) in at
        ensures name == items[index].name
      {
        assert Hangs(at, kids, Child(pos, name));
      }
    } else {
      var other := if index == 0 then 1 else 0;
      assert HoldsAt(at, pos, items[other]);
      if other < index {
        NamesUnique(at, kids, pos, other, index);
      } else {
        NamesUnique(at, kids, pos, index, other);
      }
    }
  }

  lemma PrefixesStep(p: Path, i: nat)
    requires i < |p|
    ensures Child(p[..i], p[i]) == p[..i + 1]
    ensures Prefixes(p[..i + 1]) == Prefixes(p[..i]) + {p[..i + 1]}
  {
    var a, b := p[..i], p[..i + 1];
    assert forall k :: 1 <= k <= i ==> a[..k] == b[..k];
    forall q
      ensures q in Prefixes(b) <==> q in Prefixes(a) || q == b
    {
      if q in Prefixes(b) && q != b {
        assert q == b[..|q|] == a[..|q|];
      }
      if q in Prefixes(a) {
        assert q == a[..|q|] == b[..|q|];
      }
    }
  }

  /** The heap objects are what the maps say. */
  ghost predicate Consistent(at: Nodes, kids: Vectors, fss: Filesystems, repr: set<MountableDirectory>)
    reads repr
  {
    kids.Keys == at.Keys + {[]} && fss.Keys == at.Keys
    && (forall p :: p in at ==> at[p] in repr)
    && forall p :: p in at ==> at[p].dirs == kids[p] && at[p].vfs == fss[p]
  }

  /** Deleted objects: the one at `dead`, or none when that is the root position. */
  ghost predicate DeadAt(at: Nodes, repr: set<MountableDirectory>, dead: Path)
    reads repr
  {
    forall p :: p in at ==> at[p] in repr && (at[p].freed <==> p == dead)
  }

  /** Between a change to the vector of `pos` and the update of the ghost maps. */
  ghost predicate Ahead(at: Nodes, kids: Vectors, fss: Filesystems, repr: set<MountableDirectory>,
                        pos: Path, items: seq<MountableDirectory>, dead: Path)
    reads repr
  {
    kids.Keys == at.Keys + {[]} && fss.Keys == at.Keys
    && forall p :: p in at ==> at[p] in repr && (at[p].freed <==> p == dead) && at[p].vfs == fss[p]
                               && at[p].dirs == if p == pos then items else kids[p]
  }

  lemma CaughtUpGrown(at: Nodes, kids: Vectors, fss: Filesystems, repr: set<MountableDirectory>,
                      pos: Path, item: MountableDirectory)
    requires CanGrow(at, kids, pos, item) && Ahead(at, kids, fss, repr, pos, kids[pos] + [item], [])
    requires item.dirs == [] && !item.freed
    ensures var at', kids', repr' := GrownAt(at, pos, item), GrownKids(kids, pos, item), repr + {item};
            var fss' := fss[Child(pos, item.name) := item.vfs];
            Consistent(at', kids', fss', repr') && DeadAt(at', repr', [])
  {
    hide Child, Up, Last, Tree, Leads, GrownAt, GrownKids;
    GrownParts(at, kids, pos, item);
  }

  lemma CaughtUpPruned(at: Nodes, kids: Vectors, fss: Filesystems, repr: set<MountableDirectory>,
                       pos: Path, index: nat)
    requires CanPrune(at, kids, pos, index)
    requires Ahead(at, kids, fss, repr, pos, Without(kids[pos], index), Child(pos, kids[pos][index].name))
    ensures var c := Child(pos, kids[pos][index].name);
            var kids' := PrunedKids(kids, pos, index);
            Consistent(at - {c}, kids', fss - {c}, repr) && DeadAt(at - {c}, repr, [])
            && [] in kids' && kids'[[]] == if pos == [] then Without(kids[[]], index) else kids[[]]
  {
    hide Child, Up, Last, Tree, Leads, Without;
    ChildLeads(pos, kids[pos][index].name);
    TreeKeys(at, kids);
  }

  /** A child off the way to the target shows that not everything below is on it. */
  lemma StrayChild(at: Nodes, kids: Vectors, pos: Path, path: Path)
    requires Tree(at, kids) && pos in kids && kids[pos] != []
    requires path == [] || Child(pos, path[0]) !in at
    ensures !OnlyTowards(at.Keys, pos, pos + path)
  {
    hide Up, Last, Hangs, Unshared, Child, Leads;
    assert Holds(at, kids, pos);
    var item := kids[pos][0];
    assert HoldsAt(at, pos, item);
    var c := Child(pos, item.name);
    ChildLeads(pos, item.name);
    if path == [] {
      assert pos + path == pos;
    } else {
      SplitTarget(pos, path);
      if Leads(c, pos + path) {
        SameChild(pos, item.name, path[0], pos + path);
      }
    }
  }

  /** What the recursion into the child at `index` and the erasure after it add up to. */
  lemma ChildDone(at: Nodes, kids: Vectors, pos: Path, path: Path, index: nat)
    requires Tree(at, kids) && pos in kids && path != [] && index < |kids[pos]|
    requires kids[pos][index].name == path[0] && Child(pos, path[0]) in at
    ensures var c, t := Child(pos, path[0]), pos + path;
            t == c + path[1..]
            && Below(at.Keys, pos, t) == (if OnlyTowards(at.Keys, c, t) then Below(at.Keys, c, t) + {c} else Below(at.Keys, c, t))
            && (OnlyTowards(at.Keys, pos, t) <==> OnlyTowards(at.Keys, c, t) && Without(kids[pos], index) == [])
            && !Leads(c, pos)
  {
    hide Leads, Child, Tree;
    NodesPrefixClosed(at, kids);
    SplitTarget(pos, path);
    BelowStep(at.Keys, pos, path);
    OnlyTowardsStep(at.Keys, pos, path);
    OnlyChild(at, kids, pos, index);
    ChildLeads(pos, path[0]);
  }

  lemma TargetMissing(nodes: set<Path>, pos: Path, path: Path)
    requires PrefixClosed(nodes) && path != [] && Child(pos, path[0]) !in nodes
    ensures pos + path !in nodes
  {
    hide Leads, Child;
    SplitTarget(pos, path);
  }

  lemma LeadsPlus(pos: Path, path: Path)
    ensures Leads(pos, pos + path)
  {
  }

  lemma MinusTwice<V>(m: map<Path, V>, a: set<Path>, b: set<Path>)
    ensures m - a - b == m - (a + b) && m - {} == m
  {
  }

  lemma PrunedElsewhere(kids: Vectors, pos: Path, index: nat)
    requires pos in kids && index < |kids[pos]|
    ensures var kids' := PrunedKids(kids, pos, index);
            pos in kids' && kids'[pos] == Without(kids[pos], index)
            && forall q :: q in kids && !Leads(pos, q) ==> q in kids' && kids'[q] == kids[q]
  {
    hide Leads, Child, Without;
    LeadsSelf(pos);
    ChildLeads(pos, kids[pos][index].name);
  }

  /** A change below the child leaves the vector of its parent, and everything not below the parent. */
  lemma StillThere(before: Vectors, after: Vectors, pos: Path, name: string)
    requires pos in before
    requires forall q :: q in before && !Leads(Child(pos, name), q) ==> q in after && after[q] == before[q]
    ensures pos in after && after[pos] == before[pos]
    ensures forall q :: q in before && !Leads(pos, q) ==> q in after && after[q] == before[q]
  {
    hide Leads, Child;
    ChildLeads(pos, name);
    forall q | q in before && !Leads(pos, q)
      ensures q in after && after[q] == before[q]
    {
      if Leads(Child(pos, name), q) {
        LeadsTrans(pos, Child(pos, name), q);
      }
    }
  }

  /** Clearing the filesystem at `t`, if there is such a node. */
  function Cleared(fss: Filesystems, t: Path): Filesystems {
    if t in fss then fss[t := None] else fss
  }

  /** What `Unmount` does to the filesystems, and the table step it is. */
  lemma UnmountedTable(fss: Filesystems, p: Path)
    requires p == [] ==> [] !in fss
    ensures TableOf(Cleared(fss, p) - Dropped(fss.Keys, p)) == Unmounted(TableOf(fss), p)
  {
    hide Leads, Dropped;
    var t, fss' := Unmounted(TableOf(fss), p), Cleared(fss, p) - Dropped(fss.Keys, p);
    assert TableOf(fss').nodes == t.nodes;
    assert TableOf(fss').mounts == t.mounts;
  }

  // ----- Looking up -----

  /** The filesystem of the longest mounted prefix within `n` components, and the path left for it. */
  function Answer(t: Table, root: Option<Vfs>, path: Path, n: nat): (Path, Option<Vfs>)
    requires n <= |path|
  {
    var k := LongestUpTo(t.mounts, path, n);
    if k == 0 then (path, root) else (path[k..], Some(t.mounts[path[..k]]))
  }

  /** Past a position without a node there are no mounts. */
  lemma {:induction false} AnswerStops(t: Table, root: Option<Vfs>, path: Path, n: nat, n': nat)
    requires n < n' <= |path| && PrefixClosed(t.nodes) && t.mounts.Keys <= t.nodes
    requires path[..n + 1] !in t.nodes
    ensures Answer(t, root, path, n') == Answer(t, root, path, n)
  {
    assert path[..n + 1] == path[..n'][..n + 1];
    assert Leads(path[..n + 1], path[..n']);
    if n + 1 < n' {
      AnswerStops(t, root, path, n, n' - 1);
    }
  }

  lemma AnswerStep(t: Table, root: Option<Vfs>, path: Path, n: nat)
    requires n < |path|
    ensures path[..n + 1] !in t.mounts ==> Answer(t, root, path, n + 1) == Answer(t, root, path, n)
    ensures path[..n + 1] in t.mounts
            ==> Answer(t, root, path, n + 1) == (path[n + 1..], Some(t.mounts[path[..n + 1]]))
  {
  }

  lemma GrownState(at: Nodes, kids: Vectors, fss: Filesystems, repr: set<MountableDirectory>,
                   pos: Path, item: MountableDirectory)
    requires CanGrow(at, kids, pos, item) && Ahead(at, kids, fss, repr, pos, kids[pos] + [item], [])
    requires item.dirs == [] && !item.freed && [] in kids
    ensures var at', kids', repr' := GrownAt(at, pos, item), GrownKids(kids, pos, item), repr + {item};
            Tree(at', kids') && Consistent(at', kids', fss[Child(pos, item.name) := item.vfs], repr') && DeadAt(at', repr', [])
            && [] in kids' && kids'[[]] == if pos == [] then kids[[]] + [item] else kids[[]]
  {
    hide Child, Tree, GrownAt, GrownKids, Consistent, DeadAt, Ahead;
    GrowTree(at, kids, pos, item);
    CaughtUpGrown(at, kids, fss, repr, pos, item);
    GrownTop(at, kids, pos, item);
  }

  lemma GrownTop(at: Nodes, kids: Vectors, pos: Path, item: MountableDirectory)
    requires CanGrow(at, kids, pos, item) && [] in kids
    ensures var kids' := GrownKids(kids, pos, item);
            [] in kids' && kids'[[]] == if pos == [] then kids[[]] + [item] else kids[[]]
  {
    hide Child, Tree, GrownAt, GrownKids;
    GrownParts(at, kids, pos, item);
  }

  lemma PrunedState(at: Nodes, kids: Vectors, fss: Filesystems, repr: set<MountableDirectory>,
                    pos: Path, index: nat, c: Path)
    requires CanPrune(at, kids, pos, index) && c == Child(pos, kids[pos][index].name)
    requires Ahead(at, kids, fss, repr, pos, Without(kids[pos], index), c)
    ensures var kids' := PrunedKids(kids, pos, index);
            Tree(at - {c}, kids') && Consistent(at - {c}, kids', fss - {c}, repr) && DeadAt(at - {c}, repr, [])
            && [] in kids' && kids'[[]] == if pos == [] then Without(kids[[]], index) else kids[[]]
  {
    hide Child, Tree, Without, PrunedKids, Consistent, DeadAt, Ahead;
    PruneTree(at, kids, pos, index);
    CaughtUpPruned(at, kids, fss, repr, pos, index);
  }

  class MountableFilesystem {
    const root: Option<Vfs>
    var directories: seq<MountableDirectory>
    /** Every live node by position, and the vector of children at every position. */
    ghost var at: Nodes
    ghost var kids: Vectors
    /** The filesystem of every node. */
    ghost var fss: Filesystems
    /** The directories this object owns. */
    ghost var repr: set<MountableDirectory>

    ghost predicate Linked()
      reads this, repr
    {
      Tree(at, kids) && [] in kids && kids[[]] == directories && Consistent(at, kids, fss, repr)
    }

    ghost predicate Valid()
      reads this, repr
    {
      Linked() && DeadAt(at, repr, [])
    }

    /** The abstract mount table. */
    ghost function Current(): Table
      reads this
    {
      TableOf(fss)
    }

    constructor (root: Option<Vfs>)
      ensures Valid() && Current() == Table({}, map[]) && this.root == root && repr == {}
    {
      this.root := root;
      directories := [];
      at := map[];
      kids := map[[] := []];
      fss, repr := map[], {};
    }

    /** The linear search for a child that every operation repeats. */
    static method FindChild(kids: seq<MountableDirectory>, name: string) returns (index: nat)
      ensures index <= |kids|
      ensures index < |kids| ==> kids[index].name == name
      ensures forall i :: 0 <= i < index ==> kids[i].name != name
    {
      index := 0;
      while index < |kids| && kids[index].name != name
        invariant index <= |kids|
        invariant forall i :: 0 <= i < index ==> kids[i].name != name
      {
        index := index + 1;
      }
    }

    /** Brings the ghost maps up to date after `push_back(item)` on the vector of `pos`. */
    ghost method Link(pos: Path, item: MountableDirectory)
      requires CanGrow(at, kids, pos, item) && Ahead(at, kids, fss, repr, pos, kids[pos] + [item], [])
      requires item.dirs == [] && !item.freed && [] in kids
      requires directories == if pos == [] then kids[[]] + [item] else kids[[]]
      modifies this`at, this`kids, this`fss, this`repr
      ensures Valid() && repr == old(repr) + {item}
      ensures at == GrownAt(old(at), pos, item) && fss == old(fss)[Child(pos, item.name) := item.vfs]
    {
      hide Child, Tree, GrownAt, GrownKids, Consistent, DeadAt, Ahead;
      GrownState(at, kids, fss, repr, pos, item);
      hide CanGrow;
      at, kids, fss, repr :=
        GrownAt(at, pos, item), GrownKids(kids, pos, item), fss[Child(pos, item.name) := item.vfs], repr + {item};
    }

    /** `new MountableDirectory` and `push_back` on the top vector. */
    method AddTop(name: string, vfs: Option<Vfs>) returns (item: MountableDirectory)
      requires Valid() && Child([], name) !in at
      modifies this
      ensures Valid() && fresh(repr - old(repr))
      ensures item.name == name && at == GrownAt(old(at), [], item)
      ensures fss == old(fss)[Child([], name) := vfs]
    {
      hide Child, Up, Last, Tree, Leads, GrownAt, GrownKids;
      TreeKeys(at, kids);
      item := new MountableDirectory(name, vfs);
      directories := directories + [item];
      Link([], item);
    }

    /** The same on the vector of the directory `cur` at `pos`. */
    method AddBelow(cur: MountableDirectory, ghost pos: Path, name: string, vfs: Option<Vfs>)
      returns (item: MountableDirectory)
      requires Valid() && pos in at && at[pos] == cur && Child(pos, name) !in at
      modifies this, cur`dirs
      ensures Valid() && fresh(repr - old(repr))
      ensures item.name == name && at == GrownAt(old(at), pos, item)
      ensures fss == old(fss)[Child(pos, name) := vfs]
    {
      hide Child, Up, Last, Tree, Leads, GrownAt, GrownKids;
      TreeKeys(at, kids);
      NotShared(at, kids, pos);
      item := new MountableDirectory(name, vfs);
      cur.dirs := cur.dirs + [item];
      Link(pos, item);
    }

    /** Search for the child of that name at `pos`. */
    method Search(cur: MountableDirectory?, ghost pos: Path, name: string) returns (item: MountableDirectory?)
      requires Valid() && (pos == [] || pos in at)
      requires cur == null <==> pos == []
      requires pos != [] ==> at[pos] == cur
      ensures item == null <==> Child(pos, name) !in at
      ensures item != null ==> at[Child(pos, name)] == item
    {
      hide Child, Up, Last, Tree, Leads;
      TreeKeys(at, kids);
      var items := if cur == null then directories else cur.dirs;
      var index := FindChild(items, name);
      FoundChild(at, kids, pos, name, index);
      item := if index < |items| then items[index] else null;
    }

    /** One turn of the walk in `Mount`: enter the child of that name, or create it without a filesystem. */
    method Enter(cur: MountableDirectory?, ghost pos: Path, name: string) returns (item: MountableDirectory)
      requires Valid() && (pos == [] || pos in at)
      requires cur == null <==> pos == []
      requires pos != [] ==> at[pos] == cur
      modifies this, repr
      ensures Valid() && Child(pos, name) in at && at[Child(pos, name)] == item
      ensures fresh(repr - old(repr))
      ensures Current() == Table(old(Current()).nodes + {Child(pos, name)}, old(Current()).mounts)
    {
      hide Child, Up, Last, Tree, Leads;
      var found := Search(cur, pos, name);
      PlacedTable(fss, Child(pos, name), None);
      if found != null {
        item := found;
      } else if cur == null {
        item := AddTop(name, None);
      } else {
        item := AddBelow(cur, pos, name, None);
      }
    }

    method SetVfs(item: MountableDirectory, ghost pos: Path, fs: Option<Vfs>)
      requires Valid() && pos in at && at[pos] == item
      modifies this`fss, item`vfs
      ensures Valid() && fss == old(fss)[pos := fs]
    {
      hide Child, Up, Last, Tree, Leads;
      NotShared(at, kids, pos);
      ghost var fss' := fss[pos := fs];
      assert fss'.Keys == at.Keys;
      item.vfs := fs;
      assert Consistent(at, kids, fss', repr) && DeadAt(at, repr, []);
      hide Consistent, DeadAt;
      fss := fss';
    }

    /** The end of the walk: give the last directory the filesystem. */
    method Place(cur: MountableDirectory?, ghost pos: Path, name: string, fs: Option<Vfs>)
      requires Valid() && (pos == [] || pos in at)
      requires cur == null <==> pos == []
      requires pos != [] ==> at[pos] == cur
      modifies this, repr
      ensures Valid() && fresh(repr - old(repr))
      ensures Current() == Placed(old(Current()), Child(pos, name), fs)
    {
      hide Child, Up, Last, Tree, Leads, TableOf, Placed, GrownAt;
      var item := Search(cur, pos, name);
      PlacedTable(fss, Child(pos, name), fs);
      if item != null {
        SetVfs(item, Child(pos, name), fs);
      } else if cur == null {
        var _ := AddTop(name, fs);
      } else {
        var _ := AddBelow(cur, pos, name, fs);
      }
    }

    /** Brings the ghost maps up to date after the leaf at `index` was erased from the vector of `pos`. */
    ghost method Unlink(pos: Path, index: nat)
      requires CanPrune(at, kids, pos, index) && [] in kids
      requires Ahead(at, kids, fss, repr, pos, Without(kids[pos], index), Child(pos, kids[pos][index].name))
      requires directories == if pos == [] then Without(kids[[]], index) else kids[[]]
      modifies this`at, this`kids, this`fss
      ensures Valid() && kids == PrunedKids(old(kids), pos, index)
      ensures var c := Child(pos, old(kids)[pos][index].name); at == old(at) - {c} && fss == old(fss) - {c}
    {
      hide Child, Tree, Without, PrunedKids, Consistent, DeadAt, Ahead;
      ghost var c := Child(pos, kids[pos][index].name);
      PrunedState(at, kids, fss, repr, pos, index, c);
      hide CanPrune;
      at, kids, fss := at - {c}, PrunedKids(kids, pos, index), fss - {c};
    }

    /** `directories.erase(index)`, after the child there was deleted. */
    method EraseTop(index: nat)
      requires Linked() && CanPrune(at, kids, [], index)
      requires DeadAt(at, repr, Child([], kids[[]][index].name))
      modifies this
      ensures Valid() && kids == PrunedKids(old(kids), [], index) && repr == old(repr)
      ensures var c := Child([], old(kids)[[]][index].name); at == old(at) - {c} && fss == old(fss) - {c}
    {
      hide Child, Up, Last, Tree, Leads, PrunedKids;
      TreeKeys(at, kids);
      directories := directories[..index] + directories[index + 1..];
      Unlink([], index);
    }

    /** `dir->dirs.erase(index)`, the same below the top. */
    method EraseBelow(dir: MountableDirectory, ghost pos: Path, index: nat)
      requires Linked() && pos in at && at[pos] == dir && CanPrune(at, kids, pos, index)
      requires DeadAt(at, repr, Child(pos, kids[pos][index].name))
      modifies this`at, this`kids, this`fss, dir`dirs
      ensures Valid() && pos in kids && dir.dirs == kids[pos] == Without(old(kids)[pos], index)
      ensures var c := Child(pos, old(kids)[pos][index].name); at == old(at) - {c} && fss == old(fss) - {c}
      ensures forall q :: q in old(kids) && !Leads(pos, q) ==> q in kids && kids[q] == old(kids)[q]
    {
      hide Child, Up, Last, Tree, Leads, PrunedKids;
      TreeKeys(at, kids);
      NotShared(at, kids, pos);
      PrunedElsewhere(kids, pos, index);
      dir.dirs := dir.dirs[..index] + dir.dirs[index + 1..];
      Unlink(pos, index);
    }

    /** `delete dir`, once its vector is empty. */
    method Free(dir: MountableDirectory, ghost pos: Path)
      requires Valid() && pos in at && at[pos] == dir && dir.dirs == []
      modifies dir`freed
      ensures Linked() && DeadAt(at, repr, pos) && kids[pos] == []
    {
      hide Child, Up, Last, Tree, Leads;
      TreeKeys(at, kids);
      NotShared(at, kids, pos);
      dir.Delete();
    }

    /** After a change elsewhere the vector of `dir` is still what the ghost maps say. */
    lemma Reread(dir: MountableDirectory, pos: Path)
      requires Linked() && pos in at && at[pos] == dir
      ensures pos in kids && dir.dirs == kids[pos] && pos in fss && dir.vfs == fss[pos]
      ensures pos in Current().mounts <==> dir.vfs.Some?
      ensures dir.vfs.Some? ==> Current().mounts[pos] == dir.vfs.value
    {
      hide Tree;
    }

    lemma TableNodes()
      requires Linked()
      ensures Current().nodes == at.Keys && Current().mounts.Keys <= at.Keys
    {
      hide Tree;
    }

    /** The table of a valid filesystem is a tree of positions, as the laws of `MountLaws` ask. */
    lemma TableIsClosed()
      requires Valid()
      ensures Closed(Current())
    {
      hide Tree, Leads, Consistent, DeadAt, TableOf;
      TableNodes();
      NodesPrefixClosed(at, kids);
    }

    /** The matching turn of the loop in `myumount`: recurse, and erase the child that was deleted. */
    method UmountChild(dir: MountableDirectory, ghost pos: Path, path: Path, index: nat) returns (gone: bool)
      requires Valid() && pos in at && at[pos] == dir && path != [] && pos in kids && dir.dirs == kids[pos]
      requires index < |dir.dirs| && dir.dirs[index].name == path[0]
      requires Child(pos, path[0]) in at && at[Child(pos, path[0])] == dir.dirs[index]
      modifies this`at, this`kids, this`fss, repr
      ensures Valid() && pos in at && at[pos] == dir && pos in kids && dir.dirs == kids[pos]
      ensures var nodes, t := old(at).Keys, pos + path;
              at == old(at) - Below(nodes, pos, t) && fss == Cleared(old(fss), t) - Below(nodes, pos, t)
              && (kids[pos] == [] <==> OnlyTowards(nodes, pos, t))
      ensures forall q :: q in old(kids) && !Leads(pos, q) ==> q in kids && kids[q] == old(kids)[q]
      decreases |path|, 0
    {
      assert dir in repr;
      hide Child, Up, Last, Tree, Leads, Below, OnlyTowards, Without, PrunedKids, Consistent, DeadAt, PrefixClosed, Cleared;
      TreeKeys(at, kids);
      ghost var c, b := Child(pos, path[0]), Below(at.Keys, Child(pos, path[0]), pos + path);
      ChildDone(at, kids, pos, path, index);
      gone := MyUmount(dir.dirs[index], c, path[1..]);
      MinusTwice(old(at), b, {c});
      MinusTwice(Cleared(old(fss), pos + path), b, {c});
      StillThere(old(kids), kids, pos, path[0]);
      TreeKeys(at, kids);
      Reread(dir, pos);
      if !gone {
        return;
      }
      EraseBelow(dir, pos, index);
    }

    /** `myumount`; `pos` is the position of `dir`. */
    method MyUmount(dir: MountableDirectory, ghost pos: Path, path: Path) returns (r: bool)
      requires Valid() && pos in at && at[pos] == dir
      modifies this`at, this`kids, this`fss, repr
      ensures Linked() && DeadAt(at, repr, if r then pos else []) && pos in kids
      ensures var nodes, t := old(at).Keys, pos + path;
              at == old(at) - Below(nodes, pos, t) && fss == Cleared(old(fss), t) - Below(nodes, pos, t)
              && (r <==> OnlyTowards(nodes, pos, t))
      ensures r ==> kids[pos] == []
      ensures forall q :: q in old(kids) && !Leads(pos, q) ==> q in kids && kids[q] == old(kids)[q]
      decreases |path|, 1
    {
      hide Child, Up, Last, Tree, Leads, Below, OnlyTowards, Without, PrunedKids, PrefixClosed;
      TreeKeys(at, kids);
      ghost var nodes, t := at.Keys, pos + path;
      if path == [] {
        assert t == pos;
        SetVfs(dir, pos, None);
      }
      LeadsPlus(pos, path);
      NodesPrefixClosed(at, kids);
      MinusTwice(at, {}, {});
      MinusTwice(fss, {}, {});
      if dir.dirs == [] {
        LeafBelow(at, kids, pos, t);
        if path != [] {
          NoKidsNoNodes(at, kids, pos);
          TargetMissing(nodes, pos, path);
        }
        Free(dir, pos);
        return true;
      }
      if path == [] {
        StrayChild(at, kids, pos, path);
        BelowSelf(nodes, pos);
        return false;
      }
      var index := FindChild(dir.dirs, path[0]);
      FoundChild(at, kids, pos, path[0], index);
      if index == |dir.dirs| {
        StrayChild(at, kids, pos, path);
        BelowNothing(nodes, pos, path);
        TargetMissing(nodes, pos, path);
        return false;
      }
      var _ := UmountChild(dir, pos, path, index);
      if dir.dirs == [] {
        Free(dir, pos);
        return true;
      }
      return false;
    }

    method Unmount(path: VFSPath)
      requires Valid()
      modifies this, repr
      ensures Valid() && repr == old(repr)
      ensures Current() == Unmounted(old(Current()), Collapsed(path).path)
    {
      hide Child, Up, Last, Tree, Leads, Below, OnlyTowards, Without, PrunedKids, PrefixClosed, Dropped, TableOf, Unmounted;
      var collapsed := CollapseRelativeParents(path);
      var p := collapsed.path;
      TreeKeys(at, kids);
      NodesPrefixClosed(at, kids);
      UnmountedTable(fss, p);
      BelowRoot(at.Keys, p);
      MinusTwice(fss, {}, {});
      assert [] + p == p;
      if p == [] {
        BelowSelf(at.Keys, []);
        return;
      }
      var index := FindChild(directories, p[0]);
      FoundChild(at, kids, [], p[0], index);
      if index == |directories| {
        BelowNothing(at.Keys, [], p);
        TargetMissing(at.Keys, [], p);
        return;
      }
      UmountTop(p, index);
    }

    /** The matching turn of the loop in `Unmount`. */
    method UmountTop(p: Path, index: nat)
      requires Valid() && p != [] && index < |directories| && directories[index].name == p[0]
      requires Child([], p[0]) in at && at[Child([], p[0])] == directories[index]
      modifies this, repr
      ensures Valid() && repr == old(repr)
      ensures var b := Below(old(at).Keys, [], [] + p); fss == Cleared(old(fss), [] + p) - b
    {
      hide Child, Up, Last, Tree, Leads, Below, OnlyTowards, Without, PrunedKids, Consistent, DeadAt, PrefixClosed, Cleared;
      TreeKeys(at, kids);
      ghost var c, b := Child([], p[0]), Below(at.Keys, Child([], p[0]), [] + p);
      ChildDone(at, kids, [], p, index);
      var gone := MyUmount(directories[index], c, p[1..]);
      MinusTwice(Cleared(old(fss), [] + p), b, {c});
      StillThere(old(kids), kids, [], p[0]);
      if !gone {
        return;
      }
      EraseTop(index);
    }

    // ----- Looking up -----

    /**
     * `GetFS`: the search of `MountableFilesystem` and, one level down at a time, of
     * `MountableDirectory`. `destPath` and `vfs` are the best match so far; `whole` is the
     * path the search started with and `pos` how far it has come.
     */
    method GetFS(items: seq<MountableDirectory>, ghost whole: Path, ghost pos: Path, srcPath: Path,
                 destPath: Path, vfs: Option<Vfs>)
      returns (newPath: Path, newVfs: Option<Vfs>)
      requires Valid() && pos in kids && items == kids[pos] && whole == pos + srcPath
      requires (destPath, vfs) == Answer(Current(), root, whole, |pos|)
      ensures (newPath, newVfs) == Answer(Current(), root, whole, |whole|)
      decreases |srcPath|
    {
      newPath, newVfs := destPath, vfs;
      if srcPath == [] {
        return;
      }
      hide Child, Up, Last, Tree, Leads, Answer, PrefixClosed, Consistent, DeadAt, TableOf;
      var index := FindChild(items, srcPath[0]);
      FoundChild(at, kids, pos, srcPath[0], index);
      ghost var c := Child(pos, srcPath[0]);
      OneMore(pos, srcPath);
      AnswerStep(Current(), root, whole, |pos|);
      if index == |items| {
        NodesPrefixClosed(at, kids);
        TableNodes();
        AnswerStops(Current(), root, whole, |pos|, |whole|);
        return;
      }
      var item := items[index];
      Reread(item, c);
      if item.vfs != None {
        newVfs := item.vfs;
        newPath := srcPath[1..];
      }
      newPath, newVfs := GetFS(item.dirs, whole, c, srcPath[1..], newPath, newVfs);
    }

    /**
     * What every operation of the filesystem does with a path first: collapse it, then find
     * the filesystem that serves it and the path there; the root serves what is not mounted.
     */
    method Resolve(path: VFSPath) returns (destPath: Path, vfs: Option<Vfs>)
      requires Valid()
      ensures var p := Collapsed(path).path;
              var k := LongestUpTo(Current().mounts, p, |p|);
              if k == 0 then destPath == p && vfs == root
              else destPath == p[k..] && vfs == Some(Current().mounts[p[..k]])
    {
      var collapsed := CollapseRelativeParents(path);
      var p := collapsed.path;
      hide Child, Tree, TableOf;
      TreeKeys(at, kids);
      assert [] + p == p;
      destPath, vfs := GetFS(directories, p, [], p, p, root);
    }

    method Mount(path: VFSPath, fs: Option<Vfs>)
      requires Valid()
      modifies this, repr
      ensures Valid() && fresh(repr - old(repr))
      ensures Current() == Mounted(old(Current()), Collapsed(path).path, fs)
    {
      hide Child, Up, Last, Valid, Current, Leads, Prefixes;
      var collapsed := CollapseRelativeParents(path);
      var p := collapsed.path;
      if p == [] {
        return;
      }
      var cur: MountableDirectory? := null;
      EmptyPrefixes(p[..0]);
      for i := 0 to |p| - 1
        invariant Valid() && fresh(repr - old(repr))
        invariant cur == null <==> i == 0
        invariant i > 0 ==> p[..i] in at && at[p[..i]] == cur
        invariant Current() == Table(old(Current()).nodes + Prefixes(p[..i]), old(Current()).mounts)
      {
        PrefixesStep(p, i);
        cur := Enter(cur, p[..i], p[i]);
      }
      var n := |p| - 1;
      assert p[..n + 1] == p;
      PrefixesStep(p, n);
      Place(cur, p[..n], p[n], fs);
    }
  }

  // ----- Runs of calls -----

  /** The step of the table that a call makes: both operations collapse their path first. */
  function StepOf(call: Op): Op {
    call.(path := Fold([], call.path))
  }

  function Steps(calls: seq<Op>): (steps: seq<Op>)
    ensures |steps| == |calls|
    ensures forall i :: 0 <= i < |calls| ==> steps[i] == StepOf(calls[i])
  {
    seq(|calls|, i requires 0 <= i < |calls| => StepOf(calls[i]))
  }

  lemma NextStep(calls: seq<Op>, i: nat)
    requires i < |calls|
    ensures Run(Steps(calls[..i + 1])) == Apply(Run(Steps(calls[..i])), StepOf(calls[i]))
  {
    hide StepOf, Apply;
    assert Steps(calls[..i + 1])[..i] == Steps(calls[..i]);
  }

  method Perform(fs: MountableFilesystem, call: Op)
    requires fs.Valid()
    modifies fs, fs.repr
    ensures fs.Valid() && fresh(fs.repr - old(fs.repr))
    ensures fs.Current() == Apply(old(fs.Current()), StepOf(call))
  {
    hide Fold, Mounted, Unmounted, MountableFilesystem.Valid, MountableFilesystem.Current;
    match call {
      case Mount(p, vfs) => fs.Mount(VFSPath(false, p), vfs);
      case Unmount(p) => fs.Unmount(VFSPath(false, p));
    }
  }

  /**
   * Any run of `Mount` and `Unmount` on the heap is the run of the table, and the laws of
   * `MountLaws` hold of what it leaves.
   */
  method Replay(root: Option<Vfs>, calls: seq<Op>) returns (fs: MountableFilesystem)
    ensures fresh(fs) && fresh(fs.repr) && fs.Valid() && fs.root == root
    ensures fs.Current() == Run(Steps(calls)) && Closed(fs.Current())
    ensures NoNullMount(calls) ==> Trimmed(fs.Current())
  {
    hide StepOf, Closed, Trimmed, Run, Apply, MountableFilesystem.Valid, MountableFilesystem.Current;
    fs := new MountableFilesystem(root);
    NoSteps(calls[..0]);
    for i := 0 to |calls|
      invariant fresh(fs) && fresh(fs.repr) && fs.Valid() && fs.root == root
      invariant fs.Current() == Run(Steps(calls[..i]))
    {
      NextStep(calls, i);
      Perform(fs, calls[i]);
    }
    assert calls[..|calls|] == calls;
    RunInvariant(Steps(calls));
    StepsNull(calls);
  }

  /**
   * What a lookup answers after any run: the longest mounted prefix of the collapsed path.
   * After mounts alone, that is the longest prefix whose last mount gave it a filesystem.
   */
  method ReplayAndResolve(root: Option<Vfs>, calls: seq<Op>, path: VFSPath)
    returns (destPath: Path, vfs: Option<Vfs>, ghost k: nat)
    ensures var p, mounts := Collapsed(path).path, Run(Steps(calls)).mounts;
            k <= |p| && destPath == p[k..]
            && (if k == 0 then vfs == root else p[..k] in mounts && vfs == Some(mounts[p[..k]]))
            && forall j :: k < j <= |p| ==> p[..j] !in mounts
    ensures OnlyMounts(calls) ==>
              var p := Collapsed(path).path;
              OnlyMounts(Steps(calls))
              && (k > 0 ==> vfs.Some? && LastMounted(Steps(calls), p[..k]) == vfs)
              && forall j :: k < j <= |p| ==> LastMounted(Steps(calls), p[..j]) == None
  {
    hide Fold, Run, LastMounted, Closed, Trimmed, MountableFilesystem.Valid, MountableFilesystem.Current;
    var fs := Replay(root, calls);
    destPath, vfs := fs.Resolve(path);
    ghost var p := Collapsed(path).path;
    k := LongestUpTo(Run(Steps(calls)).mounts, p, |p|);
    if OnlyMounts(calls) {
      forall j | 0 < j <= |p|
        ensures match LastMounted(Steps(calls), p[..j])
                case Some(v) => p[..j] in Run(Steps(calls)).mounts && Run(Steps(calls)).mounts[p[..j]] == v
                case None => p[..j] !in Run(Steps(calls)).mounts
      {
        RunOfMounts(Steps(calls), p[..j]);
      }
    }
  }

  lemma NoSteps(calls: seq<Op>)
    requires calls == []
    ensures Run(Steps(calls)) == Table({}, map[])
  {
  }

  lemma StepsNull(calls: seq<Op>)
    ensures NoNullMount(calls) ==> NoNullMount(Steps(calls))
  {
    hide Fold;
  }

  lemma EmptyPrefixes(p: Path)
    requires p == []
    ensures Prefixes(p) == {}
  {
  }
}
