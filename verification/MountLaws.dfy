/**
 * The mount table as a value: which positions have a tree node, and which of those have a
 * filesystem. `MountTree` proves that the heap tree of MountableFilesystem.cpp steps this
 * value; here are the laws of the steps, over every run.
 */
module MountLaws {
  import opened Text

  /** Identity of a mounted filesystem object. */
  datatype Vfs = Vfs(id: int)

  type Path = seq<string>

  datatype Table = Table(nodes: set<Path>, mounts: map<Path, Vfs>)

  /** `q` is `p` or an ancestor of it. */
  predicate Leads(q: Path, p: Path) {
    q <= p
  }

  lemma LeadsTrans(a: Path, b: Path, c: Path)
    requires Leads(a, b) && Leads(b, c)
    ensures Leads(a, c)
  {
  }

  lemma LeadsSelf(p: Path)
    ensures Leads(p, p)
  {
  }

  lemma LeadsBoth(a: Path, b: Path)
    requires Leads(a, b) && Leads(b, a)
    ensures a == b
  {
  }

  /** The nonempty prefixes of a path: its ancestors and itself. */
  function Prefixes(p: Path): (s: set<Path>)
    ensures forall q :: q in s <==> q != [] && Leads(q, p)
  {
    var s := set k | 1 <= k <= |p| :: p[..k];
    assert forall q :: q != [] && Leads(q, p) ==> q == p[..|q|];
    s
  }

  // ----- Steps -----

  /** `Mount`: a null filesystem leaves the node without one. */
  function Mounted(t: Table, p: Path, fs: Option<Vfs>): Table {
    if p == [] then t
    else Table(t.nodes + Prefixes(p), match fs case Some(v) => t.mounts[p := v] case None => t.mounts - {p})
  }

  /** Everything at or below `q` lies on the way to `p`. */
  predicate OnlyTowards(nodes: set<Path>, q: Path, p: Path) {
    forall n :: n in nodes && Leads(q, n) ==> Leads(n, p)
  }

  /** The nodes `Unmount(p)` deletes. */
  function Dropped(nodes: set<Path>, p: Path): set<Path> {
    set q | q in nodes && Leads(q, p) && OnlyTowards(nodes, q, p)
  }

  function Unmounted(t: Table, p: Path): Table {
    var nodes := t.nodes - Dropped(t.nodes, p);
    Table(nodes, map q | q in t.mounts && q != p && q in nodes :: t.mounts[q])
  }

  /** Length of the longest mounted prefix among the first `n` components; 0 if there is none. */
  function LongestUpTo(m: map<Path, Vfs>, path: Path, n: nat): (k: nat)
    requires n <= |path|
    ensures k <= n && (k > 0 ==> path[..k] in m)
    ensures forall j :: k < j <= n ==> path[..j] !in m
  {
    if n == 0 then 0 else if path[..n] in m then n else LongestUpTo(m, path, n - 1)
  }

  // ----- Invariants -----

  /** Nodes are positions in a tree: the root has none, and ancestors of nodes are nodes. */
  ghost predicate Closed(t: Table) {
    [] !in t.nodes && t.mounts.Keys <= t.nodes
    && forall n, q :: n in t.nodes && q != [] && Leads(q, n) ==> q in t.nodes
  }

  /** No branch without a filesystem at its end. */
  ghost predicate Trimmed(t: Table) {
    forall n :: n in t.nodes ==> exists m :: m in t.mounts && Leads(n, m)
  }

  lemma MountedClosed(t: Table, p: Path, fs: Option<Vfs>)
    requires Closed(t)
    ensures Closed(Mounted(t, p, fs))
  {
    hide Leads;
    var t' := Mounted(t, p, fs);
    LeadsSelf(p);
    forall n, q | n in t'.nodes && q != [] && Leads(q, n)
      ensures q in t'.nodes
    {
      if n !in t.nodes {
        LeadsTrans(q, n, p);
      }
    }
  }

  lemma MountedTrimmed(t: Table, p: Path, v: Vfs)
    requires Trimmed(t)
    ensures Trimmed(Mounted(t, p, Some(v)))
  {
    hide Leads;
    var t' := Mounted(t, p, Some(v));
    if p != [] {
      assert forall m :: m in t.mounts ==> m in t'.mounts;
      assert p in t'.mounts;
    }
  }

  lemma UnmountedKeeps(t: Table, p: Path)
    requires Closed(t)
    ensures Closed(Unmounted(t, p))
    ensures Trimmed(t) ==> Trimmed(Unmounted(t, p))
  {
    hide Leads;
    var t' := Unmounted(t, p);
    forall n, q | n in t'.nodes && q != [] && Leads(q, n)
      ensures q in t'.nodes
    {
      if q in Dropped(t.nodes, p) {
        DroppedUpward(t.nodes, q, n, p);
      }
    }
    if Trimmed(t) {
      forall n | n in t'.nodes
        ensures exists m :: m in t'.mounts && Leads(n, m)
      {
        KeptHasMount(t, n, p);
      }
    }
  }

  /** What lies below a deleted node is deleted with it. */
  lemma DroppedUpward(nodes: set<Path>, q: Path, n: Path, p: Path)
    requires q in Dropped(nodes, p) && n in nodes && Leads(q, n)
    ensures n in Dropped(nodes, p)
  {
    hide Leads;
    forall n' | n' in nodes && Leads(n, n')
      ensures Leads(n', p)
    {
      LeadsTrans(q, n, n');
    }
  }

  lemma MountSurvives(t: Table, m: Path, p: Path)
    requires Closed(t) && m in t.mounts && !Leads(m, p)
    ensures m in Unmounted(t, p).mounts
  {
    hide Leads;
    LeadsSelf(p);
  }

  lemma KeptHasMount(t: Table, n: Path, p: Path)
    requires Closed(t) && Trimmed(t) && n in Unmounted(t, p).nodes
    ensures exists m :: m in Unmounted(t, p).mounts && Leads(n, m)
  {
    hide Leads, Closed;
    if Leads(n, p) {
      // Some node below n leads elsewhere; the mount below that one stays.
      var n' :| n' in t.nodes && Leads(n, n') && !Leads(n', p);
      SurvivorBelow(t, n', p);
      var m :| m in Unmounted(t, p).mounts && Leads(n', m);
      LeadsTrans(n, n', m);
    } else {
      SurvivorBelow(t, n, p);
    }
  }

  lemma SurvivorBelow(t: Table, n: Path, p: Path)
    requires Closed(t) && Trimmed(t) && n in t.nodes && !Leads(n, p)
    ensures exists m :: m in Unmounted(t, p).mounts && Leads(n, m)
  {
    hide Leads, Closed, Unmounted;
    var m :| m in t.mounts && Leads(n, m);
    if Leads(m, p) {
      LeadsTrans(n, m, p);
    }
    MountSurvives(t, m, p);
  }

  // ----- Unmount on the mount map alone -----

  /** Every mount at or below `q` lies on the way to `p`: unmounting `p` deletes `q`. */
  predicate Collateral(m: map<Path, Vfs>, q: Path, p: Path) {
    Leads(q, p) && forall k :: k in m && Leads(q, k) ==> Leads(k, p)
  }

  lemma DroppedByMounts(t: Table, q: Path, p: Path)
    requires Closed(t) && Trimmed(t) && q in t.nodes
    ensures q in Dropped(t.nodes, p) <==> Collateral(t.mounts, q, p)
  {
    hide Leads;
    if Collateral(t.mounts, q, p) {
      forall n | n in t.nodes && Leads(q, n)
        ensures Leads(n, p)
      {
        var m :| m in t.mounts && Leads(n, m);
        LeadsTrans(q, n, m);
        LeadsTrans(n, m, p);
      }
    }
  }

  /** `Unmount(p)` removes `p`, and those prefixes of `p` that have no mount beside the way to `p`. */
  lemma UnmountedMounts(t: Table, p: Path, q: Path)
    requires Closed(t) && Trimmed(t)
    ensures q in Unmounted(t, p).mounts <==> q in t.mounts && q != p && !Collateral(t.mounts, q, p)
    ensures q in Unmounted(t, p).mounts ==> Unmounted(t, p).mounts[q] == t.mounts[q]
  {
    hide Leads, Dropped, Trimmed, Collateral;
    if q in t.nodes {
      DroppedByMounts(t, q, p);
    }
  }

  /** `Unmount(p)` changes no mount point that is not a prefix of `p`, null mounts or not. */
  lemma UnmountLocal(t: Table, p: Path, q: Path)
    requires Closed(t) && !Leads(q, p)
    ensures q in Unmounted(t, p).mounts <==> q in t.mounts
    ensures q in t.mounts ==> Unmounted(t, p).mounts[q] == t.mounts[q]
  {
    hide Leads;
    LeadsSelf(p);
  }

  /** A node beside the way from `q` to `p` keeps `q` when `p` is unmounted. */
  predicate HeldBeside(nodes: set<Path>, q: Path, p: Path) {
    exists n :: n in nodes && Leads(q, n) && !Leads(n, p)
  }

  /** In any tree `Unmount(p)` removes `p` and nothing else exactly when every other mounted prefix has a node beside the way to `p`. */
  lemma UnmountExactInAnyTree(t: Table, p: Path)
    requires Closed(t)
    ensures Unmounted(t, p).mounts == t.mounts - {p}
            <==> forall q :: q in t.mounts && q != p && Leads(q, p) ==> HeldBeside(t.nodes, q, p)
  {
    hide Leads;
    var after, wanted := Unmounted(t, p).mounts, t.mounts - {p};
    assert forall q :: q in after ==> q in wanted && after[q] == wanted[q];
    assert forall q :: q in t.mounts && q != p ==> (q in after <==> q !in Dropped(t.nodes, p));
    assert forall q :: q in t.mounts ==> (q in Dropped(t.nodes, p) <==> Leads(q, p) && !HeldBeside(t.nodes, q, p));
    if forall q :: q in t.mounts && q != p && Leads(q, p) ==> HeldBeside(t.nodes, q, p) {
      assert forall q :: q in wanted ==> q in after;
      assert after == wanted;
    } else {
      var q :| q in t.mounts && q != p && Leads(q, p) && !HeldBeside(t.nodes, q, p);
      assert q in wanted && q !in after;
    }
  }

  /** `Unmount(p)` removes `p` and nothing else exactly when every other mounted prefix has a mount beside the way to `p`. */
  lemma UnmountExact(t: Table, p: Path)
    requires Closed(t) && Trimmed(t)
    ensures Unmounted(t, p).mounts == t.mounts - {p}
            <==> forall q :: q in t.mounts && q != p ==> !Collateral(t.mounts, q, p)
  {
    hide Unmounted, Closed, Trimmed, Collateral;
    var after, wanted := Unmounted(t, p).mounts, t.mounts - {p};
    forall q
      ensures q in after <==> q in wanted && !Collateral(t.mounts, q, p)
      ensures q in after ==> after[q] == t.mounts[q]
    {
      UnmountedMounts(t, p, q);
    }
    if forall q :: q in t.mounts && q != p ==> !Collateral(t.mounts, q, p) {
      assert forall q :: q in after <==> q in wanted;
      assert after == wanted;
    } else {
      var q :| q in t.mounts && q != p && Collateral(t.mounts, q, p);
      assert q in wanted && q !in after;
    }
  }

  /** In particular when no proper prefix of `p` is mounted. */
  lemma UnmountAlone(t: Table, p: Path)
    requires Closed(t)
    requires forall q :: q in t.mounts && Leads(q, p) ==> q == p
    ensures Unmounted(t, p).mounts == t.mounts - {p}
  {
    hide Unmounted, Closed, Leads, HeldBeside;
    UnmountExactInAnyTree(t, p);
  }

  /** The failing family at its smallest: unmounting a path below a lone mount point takes that mount point away. */
  lemma UnmountBelowLoses(a: string, b: string, v: Vfs)
    ensures var t := Mounted(Table({}, map[]), [a], Some(v));
            t.mounts == map[[a] := v] && Unmounted(t, [a, b]).mounts == map[]
  {
    var t := Mounted(Table({}, map[]), [a], Some(v));
    assert forall n :: n in t.nodes ==> n == [a];
    assert [a] in Dropped(t.nodes, [a, b]);
  }

  /** Unmounting undoes mounting at a free position under the same condition. */
  lemma UnmountUndoesMount(t: Table, p: Path, v: Vfs)
    requires Closed(t) && p != [] && p !in t.mounts
    ensures Unmounted(Mounted(t, p, Some(v)), p).mounts == t.mounts
            <==> forall q :: q in t.mounts && Leads(q, p) ==> HeldBeside(t.nodes, q, p)
    ensures Trimmed(t) ==>
              (Unmounted(Mounted(t, p, Some(v)), p).mounts == t.mounts
               <==> forall q :: q in t.mounts ==> !Collateral(t.mounts, q, p))
  {
    hide Unmounted, Trimmed, Leads, Collateral;
    var t' := Mounted(t, p, Some(v));
    MountedClosed(t, p, Some(v));
    UnmountExactInAnyTree(t', p);
    assert t'.mounts == t.mounts[p := v] && t'.mounts - {p} == t.mounts;
    forall q | q in t.mounts
      ensures HeldBeside(t'.nodes, q, p) <==> HeldBeside(t.nodes, q, p)
      ensures Trimmed(t) ==> (Collateral(t.mounts, q, p) <==> Leads(q, p) && !HeldBeside(t.nodes, q, p))
    {
      if Trimmed(t) {
        DroppedByMounts(t, q, p);
      }
    }
  }

  // ----- Runs -----

  datatype Op = Mount(path: Path, fs: Option<Vfs>) | Unmount(path: Path)

  function Apply(t: Table, op: Op): Table {
    match op
    case Mount(p, fs) => Mounted(t, p, fs)
    case Unmount(p) => Unmounted(t, p)
  }

  function Run(ops: seq<Op>): Table {
    if ops == [] then Table({}, map[]) else Apply(Run(ops[..|ops| - 1]), ops[|ops| - 1])
  }

  predicate NoNullMount(ops: seq<Op>) {
    forall i :: 0 <= i < |ops| && ops[i].Mount? ==> ops[i].fs.Some?
  }

  /** Over every run the nodes form a tree; and without null mounts the tree stays trimmed. */
  lemma {:induction false} RunInvariant(ops: seq<Op>)
    ensures Closed(Run(ops))
    ensures NoNullMount(ops) ==> Trimmed(Run(ops))
  {
    hide Mounted, Unmounted, Closed, Trimmed;
    if ops == [] {
      EmptyTable();
    } else {
      var before := ops[..|ops| - 1];
      RunInvariant(before);
      match ops[|ops| - 1] {
        case Mount(p, fs) =>
          MountedClosed(Run(before), p, fs);
          if NoNullMount(ops) {
            MountedTrimmed(Run(before), p, fs.value);
          }
        case Unmount(p) => UnmountedKeeps(Run(before), p);
      }
    }
  }

  lemma EmptyTable()
    ensures Closed(Table({}, map[])) && Trimmed(Table({}, map[]))
  {
  }

  /** The last call for `p` among the first `n`; `|ops|` if there is none. */
  function LastCall(ops: seq<Op>, p: Path, n: nat): (i: nat)
    requires n <= |ops|
    ensures i < n || i == |ops|
    ensures i < n ==> ops[i].path == p && forall j :: i < j < n ==> ops[j].path != p
    ensures i == |ops| ==> forall j :: 0 <= j < n ==> ops[j].path != p
  {
    if n == 0 then |ops| else if ops[n - 1].path == p then n - 1 else LastCall(ops, p, n - 1)
  }

  predicate OnlyMounts(ops: seq<Op>) {
    forall i :: 0 <= i < |ops| ==> ops[i].Mount?
  }

  /** What was mounted at `p` last; a null filesystem, or no mount at all, is None. */
  function LastMounted(ops: seq<Op>, p: Path): Option<Vfs>
    requires OnlyMounts(ops)
  {
    var i := LastCall(ops, p, |ops|);
    if i < |ops| then ops[i].fs else None
  }

  /** After any run of mounts, the table holds for each path but the root what was mounted there last. */
  lemma {:induction false} RunOfMounts(ops: seq<Op>, p: Path)
    requires OnlyMounts(ops) && p != []
    ensures match LastMounted(ops, p)
            case Some(v) => p in Run(ops).mounts && Run(ops).mounts[p] == v
            case None => p !in Run(ops).mounts
  {
    if ops != [] {
      var before := ops[..|ops| - 1];
      RunOfMounts(before, p);
      LastCallBefore(ops, p, |ops| - 1);
    }
  }

  lemma {:induction false} LastCallBefore(ops: seq<Op>, p: Path, n: nat)
    requires n < |ops|
    ensures var before := ops[..|ops| - 1];
            var i := LastCall(ops, p, n);
            LastCall(before, p, n) == if i == |ops| then |before| else i
  {
    if n > 0 {
      LastCallBefore(ops, p, n - 1);
    }
  }
}
