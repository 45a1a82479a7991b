/** The department tree shared by the synchronisation job and the import
    script: departments keyed by id, each naming its super department, the
    walks up to the root and the leaves below a department. */
module Org {
  import opened Wrappers

  type DeptId = nat
  type GroupId = nat

  /** A Department row: the school's own id for it (`raw_department_id`),
      its name, its type and its super department. */
  datatype Department = Department(rawId: string, name: string, departmentType: string, parent: Option<DeptId>)

  type Departments = map<DeptId, Department>

  /** The school itself, the root of the tree. */
  const DlutId: string := "10141"
  const DlutName: string := "大连理工大学"

  /** A walk up the tree: every step goes from a department to its super
      department. */
  predicate UpPath(deps: Departments, path: seq<DeptId>) {
    && |path| >= 1
    && (forall i :: 0 <= i < |path| ==> path[i] in deps)
    && (forall i :: 0 <= i < |path| - 1 ==> deps[path[i]].parent == Some(path[i + 1]))
  }

  /** `d` is `x` or one of its ancestors: `x` is in the subtree of `d`. */
  ghost predicate Below(deps: Departments, x: DeptId, d: DeptId) {
    exists path :: UpPath(deps, path) && path[0] == x && path[|path| - 1] == d
  }

  /** No department names `x` as its super department. */
  ghost predicate Leaf(deps: Departments, x: DeptId) {
    forall c :: c in deps ==> deps[c].parent != Some(x)
  }

  /** Every id is below `n`: the ids handed out so far. */
  predicate IdsBelow(deps: Departments, n: nat) {
    forall k :: k in deps ==> k < n
  }

  /** `department.child_departments.all()`, in id order. */
  function Children(deps: Departments, d: DeptId, n: nat): (cs: seq<DeptId>)
    ensures forall c :: c in cs <==> c < n && c in deps && deps[c].parent == Some(d)
    decreases n
  {
    if n == 0 then []
    else
      var cs := Children(deps, d, n - 1);
      if n - 1 in deps && deps[n - 1].parent == Some(d) then cs + [n - 1] else cs
  }

  /** find_all_child_department: a childless department is its own only
      leaf; otherwise the leaves of its children, child by child. Deeper
      than `fuel` levels the recursion is reported as Diverges (Python
      would exhaust its stack on a cyclic tree). */
  function Leaves(deps: Departments, n: nat, d: DeptId, fuel: nat): (r: Result<seq<DeptId>>)
    ensures r.Failure? ==> r.error == Diverges
    ensures r.Success? ==> |r.value| > 0
    decreases fuel, 0, 0
  {
    var kids := Children(deps, d, n);
    if kids == [] then Success([d])
    else if fuel == 0 then Failure(Diverges)
    else LeavesOf(deps, n, kids, fuel - 1)
  }

  function LeavesOf(deps: Departments, n: nat, ds: seq<DeptId>, fuel: nat): (r: Result<seq<DeptId>>)
    ensures r.Failure? ==> r.error == Diverges
    ensures r.Success? ==> |r.value| >= |ds|
    decreases fuel, 1, |ds|
  {
    if ds == [] then Success([])
    else
      var a :- Leaves(deps, n, ds[0], fuel);
      var b :- LeavesOf(deps, n, ds[1..], fuel);
      Success(a + b)
  }

  /** What LeavesOf collects: exactly the leaves of each department of `ds`. */
  lemma {:induction false} LeavesOfCollects(deps: Departments, n: nat, ds: seq<DeptId>, fuel: nat)
    requires LeavesOf(deps, n, ds, fuel).Success?
    ensures forall i :: 0 <= i < |ds| ==> Leaves(deps, n, ds[i], fuel).Success?
    ensures forall x :: x in LeavesOf(deps, n, ds, fuel).value <==>
                        exists i :: 0 <= i < |ds| && x in Leaves(deps, n, ds[i], fuel).value
    decreases |ds|
  {
    if ds != [] {
      LeavesOfCollects(deps, n, ds[1..], fuel);
      forall x ensures x in LeavesOf(deps, n, ds, fuel).value <==>
                       exists i :: 0 <= i < |ds| && x in Leaves(deps, n, ds[i], fuel).value
      {
        if x in LeavesOf(deps, n, ds[1..], fuel).value {
          var i :| 0 <= i < |ds[1..]| && x in Leaves(deps, n, ds[1..][i], fuel).value;
          assert ds[1..][i] == ds[i + 1];
        }
        if exists i :: 0 <= i < |ds| && x in Leaves(deps, n, ds[i], fuel).value {
          var i :| 0 <= i < |ds| && x in Leaves(deps, n, ds[i], fuel).value;
          if i > 0 {
            assert ds[1..][i - 1] == ds[i];
          }
        }
      }
      forall i | 0 <= i < |ds| ensures Leaves(deps, n, ds[i], fuel).Success? {
        if i > 0 {
          assert ds[1..][i - 1] == ds[i];
        }
      }
    }
  }

  /** One more step up from the top of a walk. */
  lemma ExtendUp(deps: Departments, path: seq<DeptId>, d: DeptId)
    requires UpPath(deps, path) && d in deps && deps[path[|path| - 1]].parent == Some(d)
    ensures UpPath(deps, path + [d])
  {
    var q := path + [d];
    forall i | 0 <= i < |q| - 1 ensures deps[q[i]].parent == Some(q[i + 1]) {
      if i < |path| - 1 {
        assert q[i] == path[i] && q[i + 1] == path[i + 1];
      }
    }
  }

  /** Dropping the top of a walk leaves a walk. */
  lemma ShortenUp(deps: Departments, path: seq<DeptId>)
    requires UpPath(deps, path) && |path| > 1
    ensures UpPath(deps, path[..|path| - 1])
  {
    var q := path[..|path| - 1];
    forall i | 0 <= i < |q| - 1 ensures deps[q[i]].parent == Some(q[i + 1]) {
      assert q[i] == path[i] && q[i + 1] == path[i + 1];
    }
  }

  /** find_all_child_department returns exactly the leaf departments of
      `d`'s subtree; a childless `d` gives `[d]`. */
  lemma LeavesAreSubtreeLeaves(deps: Departments, n: nat, d: DeptId, fuel: nat)
    requires IdsBelow(deps, n) && d in deps
    requires Leaves(deps, n, d, fuel).Success?
    ensures forall x :: x in Leaves(deps, n, d, fuel).value <==> x in deps && Leaf(deps, x) && Below(deps, x, d)
  {
    forall x ensures x in Leaves(deps, n, d, fuel).value ==> x in deps && Leaf(deps, x) && Below(deps, x, d) {
      if x in Leaves(deps, n, d, fuel).value {
        LeavesSound(deps, n, d, fuel, x);
      }
    }
    forall x ensures x in deps && Leaf(deps, x) && Below(deps, x, d) ==> x in Leaves(deps, n, d, fuel).value {
      if x in deps && Leaf(deps, x) && Below(deps, x, d) {
        var path :| UpPath(deps, path) && path[0] == x && path[|path| - 1] == d;
        LeavesComplete(deps, n, d, fuel, path);
      }
    }
  }

  /** Everything find_all_child_department returns is a leaf below `d`. */
  lemma {:induction false} LeavesSound(deps: Departments, n: nat, d: DeptId, fuel: nat, x: DeptId)
    requires IdsBelow(deps, n) && d in deps
    requires Leaves(deps, n, d, fuel).Success? && x in Leaves(deps, n, d, fuel).value
    ensures x in deps && Leaf(deps, x) && Below(deps, x, d)
    decreases fuel
  {
    var kids := Children(deps, d, n);
    if kids == [] {
      assert x == d;
      ChildlessIsLeaf(deps, n, d);
    } else {
      assert Leaves(deps, n, d, fuel) == LeavesOf(deps, n, kids, fuel - 1);
      LeavesOfCollects(deps, n, kids, fuel - 1);
      var i :| 0 <= i < |kids| && x in Leaves(deps, n, kids[i], fuel - 1).value;
      assert kids[i] in kids;
      LeavesSound(deps, n, kids[i], fuel - 1, x);
      BelowChild(deps, x, kids[i], d);
    }
  }

  /** A department without children is a leaf, below itself. */
  lemma ChildlessIsLeaf(deps: Departments, n: nat, d: DeptId)
    requires IdsBelow(deps, n) && d in deps && Children(deps, d, n) == []
    ensures Leaf(deps, d) && Below(deps, d, d)
  {
    assert UpPath(deps, [d]);
  }

  /** What is below a child of `d` is below `d`. */
  lemma BelowChild(deps: Departments, x: DeptId, c: DeptId, d: DeptId)
    requires Below(deps, x, c) && d in deps && c in deps && deps[c].parent == Some(d)
    ensures Below(deps, x, d)
  {
    var path :| UpPath(deps, path) && path[0] == x && path[|path| - 1] == c;
    ExtendUp(deps, path, d);
    assert (path + [d])[0] == x;
  }

  /** Every leaf below `d` is returned by find_all_child_department. */
  lemma {:induction false} LeavesComplete(deps: Departments, n: nat, d: DeptId, fuel: nat, path: seq<DeptId>)
    requires IdsBelow(deps, n) && d in deps
    requires Leaves(deps, n, d, fuel).Success?
    requires UpPath(deps, path) && path[|path| - 1] == d && Leaf(deps, path[0])
    ensures path[0] in Leaves(deps, n, d, fuel).value
    decreases fuel
  {
    var kids := Children(deps, d, n);
    if |path| == 1 {
      LeafHasNoChildren(deps, d, n);
    } else {
      var c := path[|path| - 2];
      assert deps[c].parent == Some(d);
      assert c in kids;
      var i :| 0 <= i < |kids| && kids[i] == c;
      LeavesOfCollects(deps, n, kids, fuel - 1);
      ShortenUp(deps, path);
      LeavesComplete(deps, n, c, fuel - 1, path[..|path| - 1]);
    }
  }

  /** A department added at the next free id without a super department
      is no one's child. */
  lemma {:induction false} ChildrenIgnoreNewRoot(deps: Departments, n: nat, root: Department, d: DeptId, k: nat)
    requires IdsBelow(deps, n) && root.parent.None? && k <= n + 1
    ensures Children(deps[n := root], d, k) == Children(deps, d, if k <= n then k else n)
    decreases k
  {
    if k > 0 {
      ChildrenIgnoreNewRoot(deps, n, root, d, k - 1);
    }
  }

  /** get_or_create of a new parentless department leaves the leaves below
      every department as they were. */
  lemma {:induction false} LeavesIgnoreNewRoot(deps: Departments, n: nat, root: Department, d: DeptId, fuel: nat)
    requires IdsBelow(deps, n) && root.parent.None?
    ensures Leaves(deps[n := root], n + 1, d, fuel) == Leaves(deps, n, d, fuel)
    decreases fuel, 0, 0
  {
    ChildrenIgnoreNewRoot(deps, n, root, d, n + 1);
    if fuel > 0 {
      LeavesOfIgnoreNewRoot(deps, n, root, Children(deps, d, n), fuel - 1);
    }
  }

  lemma {:induction false} LeavesOfIgnoreNewRoot(deps: Departments, n: nat, root: Department, ds: seq<DeptId>, fuel: nat)
    requires IdsBelow(deps, n) && root.parent.None?
    ensures LeavesOf(deps[n := root], n + 1, ds, fuel) == LeavesOf(deps, n, ds, fuel)
    decreases fuel, 1, |ds|
  {
    if ds != [] {
      LeavesIgnoreNewRoot(deps, n, root, ds[0], fuel);
      LeavesOfIgnoreNewRoot(deps, n, root, ds[1..], fuel);
    }
  }

  lemma LeafHasNoChildren(deps: Departments, d: DeptId, n: nat)
    requires Leaf(deps, d)
    ensures Children(deps, d, n) == []
  {
  }

  /** Every walk up the tree that ends at `d` has at most `bound` steps. */
  ghost predicate DepthBounded(deps: Departments, d: DeptId, bound: nat) {
    forall path :: UpPath(deps, path) && path[|path| - 1] == d ==> |path| <= bound
  }

  /** The recursion only gives up on a subtree deeper than its fuel: when
      no walk up to `d` is longer than `fuel + 1`, the leaves are found. */
  lemma {:induction false} LeavesTerminate(deps: Departments, n: nat, d: DeptId, fuel: nat)
    requires IdsBelow(deps, n) && d in deps
    requires DepthBounded(deps, d, fuel + 1)
    ensures Leaves(deps, n, d, fuel).Success?
    decreases fuel, 0, 0
  {
    var kids := Children(deps, d, n);
    if kids != [] {
      assert kids[0] in kids;
      assert UpPath(deps, [kids[0], d]);
      LeavesOfTerminate(deps, n, d, kids, fuel - 1);
    }
  }

  lemma {:induction false} LeavesOfTerminate(deps: Departments, n: nat, d: DeptId, ds: seq<DeptId>, fuel: nat)
    requires IdsBelow(deps, n) && d in deps
    requires forall i :: 0 <= i < |ds| ==> ds[i] in deps && deps[ds[i]].parent == Some(d)
    requires DepthBounded(deps, d, fuel + 2)
    ensures LeavesOf(deps, n, ds, fuel).Success?
    decreases fuel, 1, |ds|
  {
    if ds != [] {
      var c := ds[0];
      forall path | UpPath(deps, path) && path[|path| - 1] == c ensures |path| <= fuel + 1 {
        ExtendUp(deps, path, d);
      }
      LeavesTerminate(deps, n, c, fuel);
      LeavesOfTerminate(deps, n, d, ds[1..], fuel);
    }
  }

  /** The walk of get_administrative_department: `d` and its ancestors up
      to the first department without a super department. An unknown id
      raises DoesNotExist; more than `fuel` steps are reported as Diverges
      (the while loop would not end on a cyclic tree). */
  function ChainUp(deps: Departments, d: DeptId, fuel: nat): (r: Result<seq<DeptId>>)
    ensures r.Success? ==> UpPath(deps, r.value) && r.value[0] == d && deps[r.value[|r.value| - 1]].parent.None?
    ensures r.Success? ==> |r.value| <= fuel + 1
    decreases fuel
  {
    if d !in deps then Failure(DoesNotExist)
    else match deps[d].parent
      case None => Success([d])
      case Some(p) =>
        if fuel == 0 then Failure(Diverges)
        else
          var rest :- ChainUp(deps, p, fuel - 1);
          Success([d] + rest)
  }

  /** The chain found is the only walk up from `d` to a root. */
  lemma {:induction false} ChainUpUnique(deps: Departments, d: DeptId, fuel: nat, path: seq<DeptId>)
    requires UpPath(deps, path) && path[0] == d && deps[path[|path| - 1]].parent.None?
    requires |path| <= fuel + 1
    ensures ChainUp(deps, d, fuel) == Success(path)
    decreases fuel
  {
    assert path[0] in deps;
    if |path| > 1 {
      assert deps[d].parent == Some(path[1]);
      assert UpPath(deps, path[1..]);
      assert path[1..][|path| - 2] == path[|path| - 1];
      ChainUpUnique(deps, path[1], fuel - 1, path[1..]);
      assert [d] + path[1..] == path;
    } else {
      assert path == [d];
    }
  }

  /** On a walk that ends at a root nobody is their own super department. */
  lemma {:induction false} ChainSteps(deps: Departments, c: seq<DeptId>, i: nat)
    requires UpPath(deps, c) && deps[c[|c| - 1]].parent.None?
    requires i < |c| - 1
    ensures c[i] != c[i + 1]
    decreases |c| - i
  {
    if i + 1 < |c| - 1 {
      ChainSteps(deps, c, i + 1);
    }
  }

  /** A root appears on a walk only at its end. */
  lemma RootOnlyAtEnd(deps: Departments, c: seq<DeptId>, i: nat)
    requires UpPath(deps, c) && i < |c| - 1
    ensures deps[c[i]].parent.Some?
  {
    assert deps[c[i]].parent == Some(c[i + 1]);
  }
}
