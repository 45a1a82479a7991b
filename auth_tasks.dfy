/** The nightly synchronisation of departments and teachers from the
    school's information tables (auth/tasks.py): department rows, their
    groups, the administrative department of every department, and the
    teachers' departments and group memberships. */
module AuthTasks {
  import opened Wrappers
  import opened Strings
  import opened Org

  const TeacherSuffix: string := "专任教师"
  const AdminSuffix: string := "管理员"
  const PersonalGroupName: string := "个人权限"

  /** A DepartmentInformation row: id, name, type and super department id. */
  datatype RawDepartment = RawDepartment(dwid: string, dwmc: string, dwlx: string, lsdw: string)

  /** A TeacherInformation row, as far as departments and groups go: staff
      number, name and department id. */
  datatype RawTeacher = RawTeacher(zgh: string, jsxm: string, xy: string)

  /** A User row, as far as departments and groups go. */
  datatype Teacher = Teacher(firstName: string, department: Option<DeptId>, administrative: Option<DeptId>,
                             groups: set<GroupId>, usablePassword: bool)

  type Teachers = map<string, Teacher>
  type Groups = map<GroupId, string>

  // ---------------------------------------------------------------------
  // Lookups by name

  /** `Department.objects.get(raw_department_id=...)`: the lowest id below
      `n` with that raw id. */
  function FindRaw(deps: Departments, rawId: string, n: nat): (r: Option<DeptId>)
    ensures r.Some? ==> r.value < n && r.value in deps && deps[r.value].rawId == rawId
    ensures r.None? <==> forall d :: d < n && d in deps ==> deps[d].rawId != rawId
    ensures r.Some? ==> forall d :: d < r.value && d in deps ==> deps[d].rawId != rawId
    decreases n
  {
    if n == 0 then None
    else match FindRaw(deps, rawId, n - 1)
      case Some(d) => Some(d)
      case None => if n - 1 in deps && deps[n - 1].rawId == rawId then Some(n - 1) else None
  }

  /** `Group.objects.get(name=...)`: the lowest id below `n` with that name. */
  function FindGroup(groups: Groups, name: string, n: nat): (r: Option<GroupId>)
    ensures r.Some? ==> r.value < n && r.value in groups && groups[r.value] == name
    ensures r.None? <==> forall g :: g < n && g in groups ==> groups[g] != name
    ensures r.Some? ==> forall g :: g < r.value && g in groups ==> groups[g] != name
    decreases n
  {
    if n == 0 then None
    else match FindGroup(groups, name, n - 1)
      case Some(g) => Some(g)
      case None => if n - 1 in groups && groups[n - 1] == name then Some(n - 1) else None
  }

  // ---------------------------------------------------------------------
  // Group names

  /** f'{department.name}-{department.raw_department_id}-{suffix}'. */
  function GroupName(d: Department, suffix: string): string {
    d.name + "-" + d.rawId + "-" + suffix
  }

  /** A department's group starts with the prefix the name sync filters on
      and ends with its suffix. */
  lemma GroupNameAffixes(d: Department, suffix: string)
    ensures StartsWith(GroupName(d, suffix), d.name + "-" + d.rawId + "-")
    ensures EndsWith(GroupName(d, suffix), "-" + suffix)
  {
    var p := d.name + "-" + d.rawId + "-";
    assert GroupName(d, suffix) == p + suffix;
    assert (p + suffix)[..|p|] == p;
    assert GroupName(d, suffix) == d.name + "-" + d.rawId + ("-" + suffix);
  }

  /** The new name of a group of a renamed department: the name is split on
      '-' into exactly three pieces (ValueError otherwise) and the first is
      replaced by the new department name. */
  function RenamedGroupName(name: string, newName: string): (r: Result<string>)
    ensures r.Failure? <==> |Split(name, '-')| != 3
    ensures r.Failure? ==> r.error == ValueError
  {
    var parts := Split(name, '-');
    if |parts| != 3 then Failure(ValueError)
    else Success(newName + "-" + parts[1] + "-" + parts[2])
  }

  /** Renaming keeps the raw id and the suffix: a group of department
      `oldName` with raw id `rawId` becomes the same group of `newName`, provided
      none of the pieces contains '-'. */
  lemma RenameKeepsRawIdAndSuffix(oldName: string, rawId: string, suffix: string, newName: string)
    requires '-' !in oldName && '-' !in rawId && '-' !in suffix
    ensures RenamedGroupName(oldName + "-" + rawId + "-" + suffix, newName) == Success(newName + "-" + rawId + "-" + suffix)
  {
    var parts := [oldName, rawId, suffix];
    assert Join(parts, '-') == oldName + "-" + rawId + "-" + suffix by {
      assert Join(parts[1..], '-') == rawId + "-" + suffix by {
        assert parts[1..][1..] == [suffix];
      }
    }
    SplitJoin(parts, '-');
  }

  /** A renamed group starts with the new prefix f'{new}-{dwid}-' where
      dwid is the old name's second piece. */
  lemma RenamedStartsWithNewName(name: string, newName: string)
    requires RenamedGroupName(name, newName).Success?
    ensures StartsWith(RenamedGroupName(name, newName).value, newName + "-" + Split(name, '-')[1] + "-")
  {
    var parts := Split(name, '-');
    var p := newName + "-" + parts[1] + "-";
    assert RenamedGroupName(name, newName).value == p + parts[2];
    assert (p + parts[2])[..|p|] == p;
  }

  /** The group table after the name sync: every group whose name starts
      with `prefix` renamed, the others untouched; ValueError when one of
      the renamed names does not split into three pieces. */
  function RenameAll(groups: Groups, prefix: string, newName: string): (r: Result<Groups>)
    ensures r.Failure? <==> exists g :: g in groups && StartsWith(groups[g], prefix) && RenamedGroupName(groups[g], newName).Failure?
    ensures r.Success? ==> r.value.Keys == groups.Keys
    ensures r.Success? ==> forall g :: g in groups && !StartsWith(groups[g], prefix) ==> r.value[g] == groups[g]
    ensures r.Success? ==> forall g :: g in groups && StartsWith(groups[g], prefix) ==> r.value[g] == RenamedGroupName(groups[g], newName).value
  {
    if forall g :: g in groups && StartsWith(groups[g], prefix) ==> RenamedGroupName(groups[g], newName).Success? then
      Success(map g | g in groups :: if StartsWith(groups[g], prefix) then RenamedGroupName(groups[g], newName).value else groups[g])
    else Failure(ValueError)
  }

  /** `group__name__endswith='-专任教师'`. */
  predicate IsTeacherGroup(groups: Groups, g: GroupId) {
    g in groups && EndsWith(groups[g], "-" + TeacherSuffix)
  }

  /** A department's teacher group passes the endswith filter and its
      administrator group does not. */
  lemma GroupKinds(groups: Groups, g: GroupId, h: GroupId, d: Department)
    requires g in groups && groups[g] == GroupName(d, TeacherSuffix)
    requires h in groups && groups[h] == GroupName(d, AdminSuffix)
    ensures IsTeacherGroup(groups, g) && !IsTeacherGroup(groups, h)
  {
    var n, t := groups[h], "-" + TeacherSuffix;
    assert n[|n| - |"-" + AdminSuffix|..] == "-" + AdminSuffix;
    assert n[|n| - 1] == AdminSuffix[|AdminSuffix| - 1];
    assert |t| <= |n| ==> n[|n| - |t|..][|t| - 1] == n[|n| - 1];
  }

  /** `UserGroup.objects.filter(user=..., group__name__endswith='-专任教师').delete()`. */
  function WithoutTeacherGroups(gs: set<GroupId>, groups: Groups): (r: set<GroupId>)
    ensures r <= gs
    ensures forall g :: g in gs ==> (g in r <==> !IsTeacherGroup(groups, g))
  {
    set g | g in gs && !IsTeacherGroup(groups, g)
  }

  /** A teacher moved out of the tree: no teacher groups, no department. */
  function Evicted(t: Teacher, groups: Groups): (r: Teacher)
    ensures r.department.None? && r.groups <= t.groups
    ensures forall g :: g in r.groups ==> !IsTeacherGroup(groups, g)
    ensures r.(groups := t.groups, department := t.department) == t
  {
    t.(groups := WithoutTeacherGroups(t.groups, groups), department := None)
  }

  /** One step of the eviction loop: the teachers of department `leaf`. */
  function EvictFrom(teachers: Teachers, groups: Groups, leaf: DeptId): (r: Teachers)
    ensures r.Keys == teachers.Keys
    ensures forall u :: u in r ==> r[u].department != Some(leaf)
    ensures forall u :: u in teachers && teachers[u].department != Some(leaf) ==> r[u] == teachers[u]
  {
    map u | u in teachers :: if teachers[u].department == Some(leaf) then Evicted(teachers[u], groups) else teachers[u]
  }

  /** The eviction loop over the leaves, one department after another. */
  function EvictAll(teachers: Teachers, groups: Groups, leaves: seq<DeptId>): (r: Teachers)
    ensures r.Keys == teachers.Keys
    ensures forall u :: u in r && r[u].department.Some? ==> r[u].department.value !in leaves
    decreases |leaves|
  {
    if leaves == [] then teachers
    else EvictFrom(EvictAll(teachers, groups, leaves[..|leaves| - 1]), groups, leaves[|leaves| - 1])
  }

  /** The eviction loop evicts exactly the teachers whose department is one
      of the leaves, and leaves every other teacher as it was. */
  lemma {:induction false} EvictAllEvictsLeafTeachers(teachers: Teachers, groups: Groups, leaves: seq<DeptId>)
    ensures EvictAll(teachers, groups, leaves).Keys == teachers.Keys
    ensures forall u :: u in teachers ==>
      EvictAll(teachers, groups, leaves)[u] ==
        if teachers[u].department.Some? && teachers[u].department.value in leaves then Evicted(teachers[u], groups) else teachers[u]
    decreases |leaves|
  {
    if leaves != [] {
      var init, last := leaves[..|leaves| - 1], leaves[|leaves| - 1];
      EvictAllEvictsLeafTeachers(teachers, groups, init);
      assert forall x :: x in leaves <==> x in init || x == last;
    }
  }

  // ---------------------------------------------------------------------
  // The administrative department

  type AdminMap = map<DeptId, DeptId>

  /** Every value is also a key, so the walk never raises KeyError. */
  predicate Closed(m: AdminMap) {
    forall k {:trigger m[k]} :: k in m ==> m[k] in m
  }

  /** A witness that the walks along `m` end: every step that does not
      stop goes to a lower rank. */
  ghost predicate Ranked(m: AdminMap, rank: map<DeptId, nat>) {
    && (forall k :: k in m ==> k in rank)
    && (forall k :: k in m && m[k] in m && m[k] != k ==> rank[m[k]] < rank[k])
  }

  /** The number of steps from `k` along `m` to the first self-mapped
      entry, when that takes at most `fuel` steps and never leaves the map. */
  function Steps(m: AdminMap, k: DeptId, fuel: nat): Option<nat>
    decreases fuel
  {
    if k !in m then None
    else if m[k] == k then Some(0)
    else if fuel == 0 then None
    else match Steps(m, m[k], fuel - 1)
      case None => None
      case Some(s) => Some(s + 1)
  }

  /** Every walk stops within as many steps as there are entries; otherwise
      some walk runs round a cycle and the while loop never ends. */
  predicate Stops(m: AdminMap) {
    forall k :: k in m ==> Steps(m, k, |m|).Some?
  }

  lemma {:induction false} StepsMore(m: AdminMap, k: DeptId, fuel: nat, more: nat)
    requires Steps(m, k, fuel).Some? && fuel <= more
    ensures Steps(m, k, more) == Steps(m, k, fuel)
    decreases fuel
  {
    if m[k] != k {
      StepsMore(m, m[k], fuel - 1, more - 1);
    }
  }

  /** The step counts rank the walks. */
  ghost function StepRank(m: AdminMap): (rank: map<DeptId, nat>)
    requires Closed(m) && Stops(m)
    ensures rank.Keys == m.Keys && Ranked(m, rank)
  {
    var rank := map k | k in m :: Steps(m, k, |m|).value;
    assert Ranked(m, rank) by {
      forall k | k in m && m[k] != k ensures rank[m[k]] < rank[k] {
        StepsMore(m, m[k], |m| - 1, |m|);
      }
    }
    rank
  }

  lemma {:induction false} SubsetCard(a: set<DeptId>, b: set<DeptId>)
    requires a <= b
    ensures |a| <= |b|
    decreases |b|
  {
    if b != {} {
      var x :| x in b;
      SubsetCard(a - {x}, b - {x});
    }
  }

  /** The entries of lower rank than `k`. */
  ghost function Lower(m: AdminMap, rank: map<DeptId, nat>, k: DeptId): set<DeptId>
    requires Ranked(m, rank) && k in m
  {
    set x | x in m && rank[x] < rank[k]
  }

  /** One step down the walk leaves fewer entries of lower rank. */
  lemma LowerShrinks(m: AdminMap, rank: map<DeptId, nat>, k: DeptId)
    requires Closed(m) && Ranked(m, rank) && k in m && m[k] != k
    ensures |Lower(m, rank, m[k])| < |Lower(m, rank, k)|
  {
    var j := m[k];
    var below, here := Lower(m, rank, j), Lower(m, rank, k);
    assert below <= here - {j};
    SubsetCard(below, here - {j});
  }

  lemma {:induction false} StepsWithinLower(m: AdminMap, rank: map<DeptId, nat>, k: DeptId, fuel: nat)
    requires Closed(m) && Ranked(m, rank) && k in m && |Lower(m, rank, k)| <= fuel
    ensures Steps(m, k, fuel).Some?
    decreases rank[k]
  {
    if m[k] != k {
      LowerShrinks(m, rank, k);
      StepsWithinLower(m, rank, m[k], fuel - 1);
    }
  }

  /** A closed map that some rank orders stops: the walks only diverge on
      a cycle. */
  lemma RankedStops(m: AdminMap, rank: map<DeptId, nat>)
    requires Closed(m) && Ranked(m, rank)
    ensures Stops(m)
  {
    forall k | k in m ensures Steps(m, k, |m|).Some? {
      SubsetCard(Lower(m, rank, k), m.Keys);
      StepsWithinLower(m, rank, k, |m|);
    }
  }

  /** The first department on `k`'s walk along `m` that maps to itself. */
  ghost function Terminal(m: AdminMap, rank: map<DeptId, nat>, k: DeptId): (t: DeptId)
    requires Closed(m) && Ranked(m, rank) && k in m
    ensures t in m && m[t] == t
    ensures rank[t] <= rank[k] && (t == k <==> m[k] == k)
    decreases rank[k]
  {
    if m[k] == k then k else Terminal(m, rank, m[k])
  }

  /** A walk along the map that stops at its first self-mapped entry. */
  predicate StopsAt(m: AdminMap, path: seq<DeptId>) {
    && |path| >= 1
    && (forall i :: 0 <= i < |path| ==> path[i] in m)
    && (forall i :: 0 <= i < |path| - 1 ==> m[path[i]] == path[i + 1] && m[path[i]] != path[i])
    && m[path[|path| - 1]] == path[|path| - 1]
  }

  /** Terminal is that first self-mapped entry, whatever the rank. */
  lemma {:induction false} TerminalIsFirstFixed(m: AdminMap, rank: map<DeptId, nat>, path: seq<DeptId>)
    requires Closed(m) && Ranked(m, rank) && StopsAt(m, path)
    ensures Terminal(m, rank, path[0]) == path[|path| - 1]
    decreases |path|
  {
    if |path| > 1 {
      assert StopsAt(m, path[1..]) by {
        forall i | 0 <= i < |path[1..]| - 1 ensures m[path[1..][i]] == path[1..][i + 1] && m[path[1..][i]] != path[1..][i] {
          assert path[1..][i] == path[i + 1] && path[1..][i + 1] == path[i + 2];
        }
      }
      TerminalIsFirstFixed(m, rank, path[1..]);
    }
  }

  /** The terminal of every entry: what update_administrative returns. */
  ghost function Terminals(m: AdminMap, rank: map<DeptId, nat>): (t: AdminMap)
    requires Closed(m) && Ranked(m, rank)
    ensures t.Keys == m.Keys
  {
    map k | k in m :: Terminal(m, rank, k)
  }

  /** The facts about the terminals the walk relies on: a terminal maps to
      itself, an entry is its own terminal exactly when it maps to itself,
      and a step that does not stop keeps the terminal and goes down in
      rank. */
  ghost predicate TerminalTable(m: AdminMap, rank: map<DeptId, nat>, t: AdminMap) {
    && t.Keys == m.Keys
    && (forall k :: k in m ==> k in rank)
    && (forall k :: k in m ==> t[k] in m && m[t[k]] == t[k] && t[t[k]] == t[k])
    && (forall k :: k in m ==> (t[k] == k <==> m[k] == k))
    && (forall k :: k in m && m[k] != k ==> m[k] in m && t[m[k]] == t[k] && rank[m[k]] < rank[k] && rank[t[k]] < rank[k])
  }

  /** A terminal is its own terminal, and a step along the map keeps the
      terminal and lowers the rank. */
  lemma TerminalFacts(m: AdminMap, rank: map<DeptId, nat>, k: DeptId)
    requires Closed(m) && Ranked(m, rank) && k in m
    ensures Terminal(m, rank, Terminal(m, rank, k)) == Terminal(m, rank, k)
    ensures m[k] != k ==> Terminal(m, rank, m[k]) == Terminal(m, rank, k) && rank[Terminal(m, rank, k)] < rank[k]
  {
    var j := Terminal(m, rank, k);
    assert Terminal(m, rank, j) == j;
  }

  /** The table of terminals has those facts. */
  lemma TerminalsTable(m: AdminMap, rank: map<DeptId, nat>) returns (t: AdminMap)
    requires Closed(m) && Ranked(m, rank)
    ensures t == Terminals(m, rank) && TerminalTable(m, rank, t)
  {
    t := Terminals(m, rank);
    forall k | k in m
      ensures t[k] in m && m[t[k]] == t[k] && t[t[k]] == t[k] && (t[k] == k <==> m[k] == k)
      ensures m[k] != k ==> m[k] in m && t[m[k]] == t[k] && rank[m[k]] < rank[k] && rank[t[k]] < rank[k]
    {
      var j := Terminal(m, rank, k);
      TerminalFacts(m, rank, k);
      assert t[k] == j && t[j] == Terminal(m, rank, j);
      if m[k] != k {
        assert t[m[k]] == Terminal(m, rank, m[k]);
      }
    }
  }

  /** And those facts determine the terminals. */
  lemma TerminalTableIsTerminals(m: AdminMap, rank: map<DeptId, nat>, t: AdminMap)
    requires Closed(m) && Ranked(m, rank) && TerminalTable(m, rank, t)
    ensures t == Terminals(m, rank)
  {
    forall k | k in m ensures t[k] == Terminal(m, rank, k) {
      TerminalTableAt(m, rank, t, k);
    }
  }

  lemma {:induction false} TerminalTableAt(m: AdminMap, rank: map<DeptId, nat>, t: AdminMap, k: DeptId)
    requires Closed(m) && Ranked(m, rank) && TerminalTable(m, rank, t) && k in m
    ensures t[k] == Terminal(m, rank, k)
    decreases rank[k]
  {
    if m[k] != k {
      TerminalTableAt(m, rank, t, m[k]);
    }
  }

  /** A map part way through update_administrative: every entry still
      maps to its original value or already to its terminal. */
  ghost predicate Compressing(m: AdminMap, t: AdminMap, cur: AdminMap) {
    && cur.Keys == m.Keys && t.Keys == m.Keys
    && forall k :: k in cur ==> cur[k] == m[k] || cur[k] == t[k]
  }

  /** Along a partly compressed map the walks keep their terminals and keep
      going down in rank. */
  lemma CompressingStep(m: AdminMap, rank: map<DeptId, nat>, t: AdminMap, cur: AdminMap, k: DeptId)
    requires TerminalTable(m, rank, t) && Compressing(m, t, cur) && k in cur
    ensures cur[k] in m && t[cur[k]] == t[k]
    ensures cur[k] == k <==> m[k] == k
    ensures cur[k] != k ==> rank[cur[k]] < rank[k]
  {
  }

  /** update_administrative: every entry is rewritten to the first
      self-mapped department of its walk, and every department passed on
      the way is rewritten too. A value that is not a key raises KeyError
      (checked here before the walk; the exception aborts the synchronisation either
      way); `rank` witnesses that no walk cycles. */
  method UpdateAdministrative(m: AdminMap) returns (r: Result<AdminMap>)
    ensures r.Success? <==> Closed(m) && Stops(m)
    ensures r.Failure? ==> r.error == if Closed(m) then Diverges else KeyError
    ensures r.Success? ==> Stops(m) && r.value == Terminals(m, StepRank(m))
  {
    if !Closed(m) {
      return Failure(KeyError);
    }
    if !Stops(m) {
      return Failure(Diverges);
    }
    ghost var rank := StepRank(m);
    ghost var t := TerminalsTable(m, rank);
    var cur := CompressAll(m, rank, t);
    TerminalTableIsTerminals(m, rank, cur);
    r := Success(cur);
  }

  /** The terminals do not depend on the rank that orders the walks. */
  lemma {:induction false} TerminalAnyRank(m: AdminMap, rank: map<DeptId, nat>, rank': map<DeptId, nat>, k: DeptId)
    requires Closed(m) && Ranked(m, rank) && Ranked(m, rank') && k in m
    ensures Terminal(m, rank, k) == Terminal(m, rank', k)
    decreases rank[k]
  {
    if m[k] != k {
      TerminalAnyRank(m, rank, rank', m[k]);
    }
  }

  lemma TerminalsAnyRank(m: AdminMap, rank: map<DeptId, nat>, rank': map<DeptId, nat>)
    requires Closed(m) && Ranked(m, rank) && Ranked(m, rank')
    ensures Terminals(m, rank) == Terminals(m, rank')
  {
    forall k | k in m ensures Terminals(m, rank)[k] == Terminals(m, rank')[k] {
      TerminalAnyRank(m, rank, rank', k);
    }
  }

  /** On a closed map that any rank orders, update_administrative succeeds
      and gives every entry the first self-mapped department on its walk. */
  lemma UpdateAdministrativeOnTrees(m: AdminMap, rank: map<DeptId, nat>)
    requires Closed(m) && Ranked(m, rank)
    ensures Stops(m)
    ensures Terminals(m, StepRank(m)) == Terminals(m, rank)
  {
    RankedStops(m, rank);
    TerminalsAnyRank(m, StepRank(m), rank);
  }

  /** The for loop of update_administrative, over the entries in any order. */
  method CompressAll(m: AdminMap, ghost rank: map<DeptId, nat>, ghost t: AdminMap) returns (cur: AdminMap)
    requires TerminalTable(m, rank, t)
    ensures cur == t
  {
    cur := m;
    var todo := m.Keys;
    while todo != {}
      invariant todo <= m.Keys
      invariant Compressing(m, t, cur)
      invariant forall k :: k in m && k !in todo ==> cur[k] == t[k]
      decreases |todo|
    {
      var k :| k in todo;
      cur := CompressFrom(m, rank, t, cur, k, m.Keys - todo);
      todo := todo - {k};
    }
  }

  /** One turn of the for loop of update_administrative: the walk from `k`
      and the rewriting of the departments passed. */
  method CompressFrom(m: AdminMap, ghost rank: map<DeptId, nat>, ghost t: AdminMap, cur: AdminMap, k: DeptId, ghost done: set<DeptId>)
    returns (cur': AdminMap)
    requires TerminalTable(m, rank, t) && Compressing(m, t, cur) && k in m
    requires forall x :: x in done ==> x in m && cur[x] == t[x]
    ensures Compressing(m, t, cur')
    ensures forall x :: x in done || x == k ==> cur'[x] == t[x]
  {
    var administrative, same := WalkToTerminal(m, rank, t, cur, k);
    cur' := Compress(m, t, cur, same, administrative);
    if k !in same {
      CompressingStep(m, rank, t, cur, k);
    }
  }

  /** The inner while loop of update_administrative: the walk from `k`
      along the partly compressed map, and the departments passed. */
  method WalkToTerminal(m: AdminMap, ghost rank: map<DeptId, nat>, ghost t: AdminMap, cur: AdminMap, k: DeptId)
    returns (administrative: DeptId, same: seq<DeptId>)
    requires TerminalTable(m, rank, t) && Compressing(m, t, cur) && k in m
    ensures administrative == t[k]
    ensures forall i :: 0 <= i < |same| ==> same[i] in m && t[same[i]] == administrative
    ensures administrative == k || k in same
  {
    var node := k;
    administrative := cur[node];
    same := [];
    while administrative != node
      invariant node in m && administrative == cur[node]
      invariant t[node] == t[k]
      invariant forall i :: 0 <= i < |same| ==> same[i] in m && t[same[i]] == t[k]
      invariant node == k || k in same
      decreases rank[node]
    {
      CompressingStep(m, rank, t, cur, node);
      same := same + [node];
      node := administrative;
      administrative := cur[node];
    }
    CompressingStep(m, rank, t, cur, node);
  }

  /** `for item_id in same_administrative: ...[item_id] = administrative`. */
  method Compress(m: AdminMap, ghost t: AdminMap, cur: AdminMap, same: seq<DeptId>, administrative: DeptId)
    returns (cur': AdminMap)
    requires Compressing(m, t, cur)
    requires forall i :: 0 <= i < |same| ==> same[i] in t && t[same[i]] == administrative
    ensures Compressing(m, t, cur')
    ensures forall x :: x in m ==> cur'[x] == if x in same then administrative else cur[x]
  {
    cur' := cur;
    for j := 0 to |same|
      invariant Compressing(m, t, cur')
      invariant forall x :: x in m ==> cur'[x] == if x in same[..j] then administrative else cur[x]
    {
      cur' := cur'[same[j] := administrative];
      assert same[..j + 1] == same[..j] + [same[j]];
    }
    assert same[..|same|] == same;
  }

  /** The rule applied while syncing: a department whose super department
      or grand-super department is the school is its own administrative
      department, any other one starts out with its super department.
      Reading the grand-super department of a department without a super
      department raises AttributeError. */
  function InitialAdministrative(deps: Departments, dlut: DeptId, d: DeptId): (r: Result<DeptId>)
    requires d in deps
    ensures r.Success? ==> deps[d].parent.Some? && (r.value == d || r.value == deps[d].parent.value)
  {
    match deps[d].parent
    case None => Failure(AttributeError)
    case Some(p) =>
      if p == dlut then Success(d)
      else if p !in deps then Failure(DoesNotExist)
      else if deps[p].parent == Some(dlut) then Success(d)
      else Success(p)
  }

  // ---------------------------------------------------------------------
  // The walk of update_user_groups

  /** The teacher groups update_user_groups hands to its handler: one per
      department from `d` up to and including the school, looked up by
      name (DoesNotExist when missing); a department without a super
      department before the school raises AttributeError; past `fuel`
      steps the walk is reported as Diverges. */
  function ChainGroups(deps: Departments, groups: Groups, ng: nat, d: DeptId, fuel: nat): (r: Result<seq<GroupId>>)
    ensures r.Success? ==> |r.value| >= 1
    decreases fuel
  {
    if d !in deps then Failure(DoesNotExist)
    else if fuel == 0 then Failure(Diverges)
    else match FindGroup(groups, GroupName(deps[d], TeacherSuffix), ng)
      case None => Failure(DoesNotExist)
      case Some(g) =>
        if deps[d].rawId == DlutId then Success([g])
        else match deps[d].parent
          case None => Failure(AttributeError)
          case Some(p) =>
            var rest :- ChainGroups(deps, groups, ng, p, fuel - 1);
            Success([g] + rest)
  }

  /** The chain of departments the walk passes: from `d` up to the first
      one carrying the school's raw id. */
  function ChainToSchool(deps: Departments, d: DeptId, fuel: nat): (r: Option<seq<DeptId>>)
    ensures r.Some? ==> UpPath(deps, r.value) && r.value[0] == d && |r.value| <= fuel
    ensures r.Some? ==> deps[r.value[|r.value| - 1]].rawId == DlutId
    ensures r.Some? ==> forall i :: 0 <= i < |r.value| - 1 ==> deps[r.value[i]].rawId != DlutId
    decreases fuel
  {
    if d !in deps || fuel == 0 then None
    else if deps[d].rawId == DlutId then Some([d])
    else match deps[d].parent
      case None => None
      case Some(p) =>
        match ChainToSchool(deps, p, fuel - 1)
        case None => None
        case Some(rest) => Some([d] + rest)
  }

  /** A successful walk hands over, department by department from `d` to
      the school, exactly the group f'{name}-{raw_department_id}-专任教师'. */
  lemma {:induction false} ChainGroupsFollowChain(deps: Departments, groups: Groups, ng: nat, d: DeptId, fuel: nat)
    requires ChainGroups(deps, groups, ng, d, fuel).Success?
    ensures ChainToSchool(deps, d, fuel).Some?
    ensures var c := ChainToSchool(deps, d, fuel).value;
            var gs := ChainGroups(deps, groups, ng, d, fuel).value;
            && UpPath(deps, c) && |gs| == |c| && c[0] == d && deps[c[|c| - 1]].rawId == DlutId
            && forall i :: 0 <= i < |c| ==> gs[i] in groups && groups[gs[i]] == GroupName(deps[c[i]], TeacherSuffix)
    decreases fuel
  {
    if deps[d].rawId != DlutId {
      var p := deps[d].parent.value;
      ChainGroupsFollowChain(deps, groups, ng, p, fuel - 1);
      var c := ChainToSchool(deps, d, fuel).value;
      var rest := ChainToSchool(deps, p, fuel - 1).value;
      var gs := ChainGroups(deps, groups, ng, d, fuel).value;
      var gr := ChainGroups(deps, groups, ng, p, fuel - 1).value;
      assert c == [d] + rest && gs == [gs[0]] + gr;
      forall i | 0 <= i < |c| - 1 ensures deps[c[i]].parent == Some(c[i + 1]) {
        if i > 0 {
          assert c[i] == rest[i - 1] && c[i + 1] == rest[i];
        }
      }
      forall i | 0 <= i < |c| ensures gs[i] in groups && groups[gs[i]] == GroupName(deps[c[i]], TeacherSuffix) {
        if i > 0 {
          assert c[i] == rest[i - 1] && gs[i] == gr[i - 1];
        }
      }
    }
  }

  /** The administrative map that update_administrative returns sends every
      department to a department that is its own administrative one. */
  lemma TerminalsAreFixed(m: AdminMap, rank: map<DeptId, nat>)
    requires Closed(m) && Ranked(m, rank)
    ensures forall k :: k in m ==> Terminals(m, rank)[k] in m && Terminals(m, rank)[Terminals(m, rank)[k]] == Terminals(m, rank)[k]
  {
    var t := TerminalsTable(m, rank);
  }

  // ---------------------------------------------------------------------
  // The department sync

  /** `if not raw_department.lsdw: raw_department.lsdw = DLUT_ID`. */
  function DefaultSuper(lsdw: string): (r: string)
    ensures r != ""
    ensures lsdw != "" ==> r == lsdw
  {
    if lsdw == "" then DlutId else lsdw
  }

  /** `DepartmentInformation.objects.get(dwid=...).dwmc`: the name in the
      first row with that id; DoesNotExist when there is none. */
  function InfoName(table: seq<RawDepartment>, dwid: string): (r: Result<string>)
    ensures r.Success? ==> exists i :: 0 <= i < |table| && table[i].dwid == dwid && table[i].dwmc == r.value
    ensures r.Failure? <==> forall i :: 0 <= i < |table| ==> table[i].dwid != dwid
    ensures r.Failure? ==> r.error == DoesNotExist
    decreases |table|
  {
    if table == [] then Failure(DoesNotExist)
    else if table[0].dwid == dwid then Success(table[0].dwmc)
    else
      var r := InfoName(table[1..], dwid);
      assert forall i :: 0 < i < |table| ==> table[i] == table[1..][i - 1];
      r
  }

  /** The name a super department gets when it has to be created: the
      school's name for the school, otherwise the one in the table. */
  function SuperName(table: seq<RawDepartment>, lsdw: string): (r: Result<string>)
    ensures lsdw == DlutId ==> r == Success(DlutName)
    ensures lsdw != DlutId ==> r == InfoName(table, lsdw)
  {
    if lsdw == DlutId then Success(DlutName) else InfoName(table, lsdw)
  }

  /** The rows the sync walks through: every row but the school's own. */
  function WithoutSchool(table: seq<RawDepartment>): (raws: seq<RawDepartment>)
    ensures forall i :: 0 <= i < |raws| ==> raws[i] in table && raws[i].dwid != DlutId
    ensures forall i :: 0 <= i < |table| && table[i].dwid != DlutId ==> table[i] in raws
    decreases |table|
  {
    if table == [] then []
    else
      var rest := WithoutSchool(table[1..]);
      assert forall i :: 0 < i < |table| ==> table[i] == table[1..][i - 1];
      if table[0].dwid == DlutId then rest else [table[0]] + rest
  }

  /** The tables' invariant: ids are below the next free id and every super
      department exists. */
  ghost predicate DirectoryOk(departments: Departments, nextDeptId: nat, groups: Groups, nextGroupId: nat) {
    && IdsBelow(departments, nextDeptId)
    && (forall d :: d in departments && departments[d].parent.Some? ==> departments[d].parent.value in departments)
    && (forall g :: g in groups ==> g < nextGroupId)
  }

  lemma NewDepartmentOk(departments: Departments, nextDeptId: nat, groups: Groups, nextGroupId: nat, dep: Department)
    requires DirectoryOk(departments, nextDeptId, groups, nextGroupId) && dep.parent.None?
    ensures DirectoryOk(departments[nextDeptId := dep], nextDeptId + 1, groups, nextGroupId)
  {
  }

  /** A department's entry rewritten with a super department that exists. */
  lemma ChangedDepartmentOk(departments: Departments, nextDeptId: nat, groups: Groups, nextGroupId: nat, d: DeptId, dep: Department)
    requires DirectoryOk(departments, nextDeptId, groups, nextGroupId) && d in departments
    requires dep.parent.Some? ==> dep.parent.value in departments
    ensures DirectoryOk(departments[d := dep], nextDeptId, groups, nextGroupId)
  {
  }

  lemma NewGroupOk(departments: Departments, nextDeptId: nat, groups: Groups, nextGroupId: nat, name: string)
    requires DirectoryOk(departments, nextDeptId, groups, nextGroupId)
    ensures DirectoryOk(departments, nextDeptId, groups[nextGroupId := name], nextGroupId + 1)
  {
  }

  /** Renamed groups keep their ids. */
  lemma RenamedGroupsOk(departments: Departments, nextDeptId: nat, groups: Groups, nextGroupId: nat, groups': Groups)
    requires DirectoryOk(departments, nextDeptId, groups, nextGroupId) && groups'.Keys == groups.Keys
    ensures DirectoryOk(departments, nextDeptId, groups', nextGroupId)
  {
  }

  /** The group looked up by name does not change when a group is added at
      the next free id. */
  lemma {:induction false} FindGroupIgnoresNew(groups: Groups, name: string, n: nat, other: string, k: nat)
    requires (forall g :: g in groups ==> g < n) && k <= n
    ensures FindGroup(groups[n := other], name, k) == FindGroup(groups, name, k)
    decreases k
  {
    if k > 0 {
      FindGroupIgnoresNew(groups, name, n, other, k - 1);
    }
  }

  /** The department looked up by raw id does not change when a department
      is added at the next free id. */
  lemma {:induction false} FindRawIgnoresNew(deps: Departments, rawId: string, n: nat, dep: Department, k: nat)
    requires IdsBelow(deps, n) && k <= n
    ensures FindRaw(deps[n := dep], rawId, k) == FindRaw(deps, rawId, k)
    decreases k
  {
    if k > 0 {
      FindRawIgnoresNew(deps, rawId, n, dep, k - 1);
    }
  }

  /** The lookup finds the same group once other groups have been added at
      new ids. */
  lemma FindGroupGrows(groups: Groups, n: nat, groups': Groups, n': nat, name: string)
    requires (forall g :: g in groups ==> g < n) && n <= n'
    requires forall g :: g in groups ==> g in groups' && groups'[g] == groups[g]
    requires FindGroup(groups, name, n).Some?
    ensures FindGroup(groups', name, n').Some?
  {
    var g := FindGroup(groups, name, n).value;
    assert g < n' && g in groups' && groups'[g] == name;
  }

  /** The super department changes when there is none or when its raw id
      differs from the row's `lsdw` as read, before the default applies. */
  predicate ParentChanges(departments: Departments, d: DeptId, lsdw: string): (r: bool)
    requires d in departments
    requires departments[d].parent.Some? ==> departments[d].parent.value in departments
    ensures departments[d].parent.None? ==> r
    ensures !r ==> departments[d].parent.Some? && departments[departments[d].parent.value].rawId == lsdw
  {
    departments[d].parent.None? || departments[departments[d].parent.value].rawId != lsdw
  }

  /** A department whose row has an empty `lsdw` counts as moved on every
      run, even when its super department already is the school: the raw id
      is compared before the default applies. */
  lemma EmptyLsdwAlwaysMoves(departments: Departments, d: DeptId)
    requires d in departments && departments[d].parent.Some? && departments[d].parent.value in departments
    requires departments[departments[d].parent.value].rawId == DlutId
    ensures ParentChanges(departments, d, "")
    ensures DefaultSuper("") == DlutId
  {
  }

  /** No group is lost and none is renamed. */
  ghost predicate GroupsGrow(groups: Groups, groups': Groups) {
    forall g :: g in groups ==> g in groups' && groups'[g] == groups[g]
  }

  /** No department is lost or changes its raw id, and the ids below the
      old next free id are not reused. */
  ghost predicate Extends(departments: Departments, n: nat, departments': Departments, n': nat) {
    && n <= n'
    && (forall e :: e in departments ==> e in departments' && departments'[e].rawId == departments[e].rawId)
    && (forall e :: e in departments' && e < n ==> e in departments)
  }

  lemma ExtendsTrans(a: Departments, na: nat, b: Departments, nb: nat, c: Departments, nc: nat)
    requires Extends(a, na, b, nb) && Extends(b, nb, c, nc)
    ensures Extends(a, na, c, nc)
  {
  }

  /** The lookup by raw id finds the same department on a table that
      extends the one it was made on. */
  lemma {:induction false} FindRawStable(deps: Departments, n: nat, deps': Departments, n': nat, rawId: string, k: nat)
    requires Extends(deps, n, deps', n') && IdsBelow(deps, n) && k <= n
    ensures FindRaw(deps', rawId, k) == FindRaw(deps, rawId, k)
    decreases k
  {
    if k > 0 {
      FindRawStable(deps, n, deps', n', rawId, k - 1);
    }
  }

  lemma {:induction false} FindRawKeeps(deps: Departments, n: nat, deps': Departments, n': nat, rawId: string, k: nat)
    requires Extends(deps, n, deps', n') && IdsBelow(deps, n) && n <= k <= n'
    requires FindRaw(deps, rawId, n).Some?
    ensures FindRaw(deps', rawId, k) == FindRaw(deps, rawId, n)
    decreases k
  {
    if k == n {
      FindRawStable(deps, n, deps', n', rawId, n);
    } else {
      FindRawKeeps(deps, n, deps', n', rawId, k - 1);
    }
  }

  /** A table renamed group by group is the one RenameAll describes. */
  lemma RenameAllIs(groups: Groups, prefix: string, newName: string, cur: Groups)
    requires forall g :: g in groups && StartsWith(groups[g], prefix) ==> RenamedGroupName(groups[g], newName).Success?
    requires cur.Keys == groups.Keys
    requires forall g :: g in groups ==>
      cur[g] == if StartsWith(groups[g], prefix) then RenamedGroupName(groups[g], newName).value else groups[g]
    ensures RenameAll(groups, prefix, newName) == Success(cur)
  {
    var r := RenameAll(groups, prefix, newName);
    assert r.Success?;
    assert forall g :: g in groups ==> r.value[g] == cur[g];
    assert r.value == cur;
  }

  /** The rename loop over `Group.objects.filter(name__startswith=prefix)`,
      saving every group with its new name. */
  method RenameGroups(groups: Groups, prefix: string, newName: string) returns (r: Result<Groups>)
    ensures r == RenameAll(groups, prefix, newName)
  {
    var related := set g | g in groups && StartsWith(groups[g], prefix);
    var todo := related;
    var cur := groups;
    while todo != {}
      invariant todo <= related && cur.Keys == groups.Keys
      invariant forall g :: g in related && g !in todo ==> RenamedGroupName(groups[g], newName).Success?
      invariant forall g :: g in groups ==>
        cur[g] == if g in related && g !in todo then RenamedGroupName(groups[g], newName).value else groups[g]
      decreases |todo|
    {
      var g :| g in todo;
      var renamed := RenamedGroupName(groups[g], newName);
      if renamed.Failure? {
        return Failure(ValueError);
      }
      cur := cur[g := renamed.value];
      todo := todo - {g};
    }
    RenameAllIs(groups, prefix, newName, cur);
    return Success(cur);
  }

  /** The walk of update_user_groups: the teacher group of every department
      from `d` up to the school, at most `fuel` departments. */
  method WalkGroups(departments: Departments, groups: Groups, nextGroupId: nat, d: DeptId, fuel: nat) returns (r: Result<seq<GroupId>>)
    ensures r == ChainGroups(departments, groups, nextGroupId, d, fuel)
  {
    var walked: seq<GroupId> := [];
    var dep, left := d, fuel;
    assert ChainGroups(departments, groups, nextGroupId, d, fuel).Success? ==>
      ChainGroups(departments, groups, nextGroupId, d, fuel).value == walked + ChainGroups(departments, groups, nextGroupId, d, fuel).value;
    while true
      invariant ChainGroups(departments, groups, nextGroupId, d, fuel) ==
        match ChainGroups(departments, groups, nextGroupId, dep, left)
        case Success(rest) => Success(walked + rest)
        case Failure(e) => Failure(e)
      decreases left
    {
      if dep !in departments {
        return Failure(DoesNotExist);
      }
      if left == 0 {
        return Failure(Diverges);
      }
      var g := FindGroup(groups, GroupName(departments[dep], TeacherSuffix), nextGroupId);
      if g.None? {
        return Failure(DoesNotExist);
      }
      if departments[dep].rawId == DlutId {
        return Success(walked + [g.value]);
      }
      if departments[dep].parent.None? {
        return Failure(AttributeError);
      }
      var up := departments[dep].parent.value;
      assert ChainGroups(departments, groups, nextGroupId, up, left - 1).Success? ==>
        walked + ChainGroups(departments, groups, nextGroupId, dep, left).value
          == (walked + [g.value]) + ChainGroups(departments, groups, nextGroupId, up, left - 1).value;
      walked := walked + [g.value];
      dep, left := up, left - 1;
    }
  }

  // ---------------------------------------------------------------------
  // The teacher sync

  function Elems(gs: seq<GroupId>): (r: set<GroupId>)
    ensures forall g :: g in r <==> g in gs
  {
    set g | g in gs
  }

  /** A user row fresh from `get_or_create`: no name, no department and
      only the personal permission group, with an unusable password. */
  function NewTeacher(personal: GroupId): (t: Teacher)
    ensures t.groups == {personal} && !t.usablePassword
    ensures t.department.None? && t.administrative.None?
  {
    Teacher("", None, None, {personal}, false)
  }

  /** The teacher after the sync of one TeacherInformation row. An unknown
      department id drops the teacher groups and the department; a new
      department first takes away the teacher groups of the old department
      and its ancestors, then sets the department and the administrative
      department (KeyError when the map has none) and adds the teacher
      groups of the new department and its ancestors. */
  function SyncedTeacher(current: Option<Teacher>, raw: RawTeacher, deps: Departments, groups: Groups, ng: nat,
                         dwidToDept: map<string, DeptId>, admin: AdminMap, personal: GroupId, fuel: nat): (r: Result<Teacher>)
    ensures r.Success? ==> r.value.firstName == raw.jsxm
    ensures raw.xy !in dwidToDept ==> r.Success? && r.value.department.None?
    ensures r.Success? ==> r.value.department.None? || raw.xy in dwidToDept
    ensures r.Failure? ==> raw.xy in dwidToDept
  {
    var t := (if current.None? then NewTeacher(personal) else current.value).(firstName := raw.jsxm);
    if raw.xy !in dwidToDept then Success(Evicted(t, groups))
    else
      var d := dwidToDept[raw.xy];
      if t.department == Some(d) then Success(t)
      else
        var removed :- if t.department.Some? then ChainGroups(deps, groups, ng, t.department.value, fuel) else Success([]);
        if d !in admin then Failure(KeyError)
        else
          var added :- ChainGroups(deps, groups, ng, d, fuel);
          Success(t.(groups := (t.groups - Elems(removed)) + Elems(added), department := Some(d), administrative := Some(admin[d])))
  }

  /** A teacher whose department id is unknown keeps every group but the
      teacher groups. */
  lemma SyncedUnknownDepartment(current: Option<Teacher>, raw: RawTeacher, deps: Departments, groups: Groups, ng: nat,
                                dwidToDept: map<string, DeptId>, admin: AdminMap, personal: GroupId, fuel: nat)
    requires raw.xy !in dwidToDept
    ensures var r := SyncedTeacher(current, raw, deps, groups, ng, dwidToDept, admin, personal, fuel);
            var start := if current.None? then NewTeacher(personal) else current.value;
            && r.Success?
            && (forall g :: g in r.value.groups <==> g in start.groups && !IsTeacherGroup(groups, g))
            && r.value.administrative == start.administrative
  {
  }

  /** A teacher moved to a new department gets that department, its
      administrative department and the teacher group of every department
      on the way from it up to the school, and loses every teacher group of
      the old chain that the new chain does not have. */
  lemma SyncedMovedTeacher(current: Option<Teacher>, raw: RawTeacher, deps: Departments, groups: Groups, ng: nat,
                           dwidToDept: map<string, DeptId>, admin: AdminMap, personal: GroupId, fuel: nat)
    requires raw.xy in dwidToDept
    requires var start := if current.None? then NewTeacher(personal) else current.value;
             start.department != Some(dwidToDept[raw.xy])
    requires SyncedTeacher(current, raw, deps, groups, ng, dwidToDept, admin, personal, fuel).Success?
    ensures var t := SyncedTeacher(current, raw, deps, groups, ng, dwidToDept, admin, personal, fuel).value;
            var d := dwidToDept[raw.xy];
            && t.department == Some(d) && d in admin && t.administrative == Some(admin[d])
            && ChainToSchool(deps, d, fuel).Some?
            && var c := ChainToSchool(deps, d, fuel).value;
               && UpPath(deps, c) && c[0] == d && deps[c[|c| - 1]].rawId == DlutId
               && forall i :: 0 <= i < |c| ==> exists g :: g in t.groups && g in groups && groups[g] == GroupName(deps[c[i]], TeacherSuffix)
    ensures var t := SyncedTeacher(current, raw, deps, groups, ng, dwidToDept, admin, personal, fuel).value;
            var start := if current.None? then NewTeacher(personal) else current.value;
            var d := dwidToDept[raw.xy];
            start.department.Some? ==>
              && ChainGroups(deps, groups, ng, start.department.value, fuel).Success?
              && forall g :: (g in ChainGroups(deps, groups, ng, start.department.value, fuel).value &&
                              g !in ChainGroups(deps, groups, ng, d, fuel).value) ==> g !in t.groups
  {
    var d := dwidToDept[raw.xy];
    ChainGroupsFollowChain(deps, groups, ng, d, fuel);
    var t := SyncedTeacher(current, raw, deps, groups, ng, dwidToDept, admin, personal, fuel).value;
    var c := ChainToSchool(deps, d, fuel).value;
    var gs := ChainGroups(deps, groups, ng, d, fuel).value;
    forall i | 0 <= i < |c| ensures exists g :: g in t.groups && g in groups && groups[g] == GroupName(deps[c[i]], TeacherSuffix) {
      assert gs[i] in t.groups;
    }
  }

  /** A user created by the sync carries the personal permission group and
      has no usable password. */
  lemma SyncedNewTeacher(raw: RawTeacher, deps: Departments, groups: Groups, ng: nat,
                         dwidToDept: map<string, DeptId>, admin: AdminMap, personal: GroupId, fuel: nat)
    requires personal in groups && groups[personal] == PersonalGroupName
    requires SyncedTeacher(None, raw, deps, groups, ng, dwidToDept, admin, personal, fuel).Success?
    ensures var t := SyncedTeacher(None, raw, deps, groups, ng, dwidToDept, admin, personal, fuel).value;
            personal in t.groups && !t.usablePassword
  {
    assert !IsTeacherGroup(groups, personal) by {
      assert |PersonalGroupName| < |"-" + TeacherSuffix|;
    }
  }

  /** Syncing a teacher a second time from the same row changes nothing. */
  lemma SyncedTeacherIdempotent(current: Option<Teacher>, raw: RawTeacher, deps: Departments, groups: Groups, ng: nat,
                                dwidToDept: map<string, DeptId>, admin: AdminMap, personal: GroupId, fuel: nat)
    requires SyncedTeacher(current, raw, deps, groups, ng, dwidToDept, admin, personal, fuel).Success?
    ensures var t := SyncedTeacher(current, raw, deps, groups, ng, dwidToDept, admin, personal, fuel).value;
            SyncedTeacher(Some(t), raw, deps, groups, ng, dwidToDept, admin, personal, fuel) == Success(t)
  {
    var t := SyncedTeacher(current, raw, deps, groups, ng, dwidToDept, admin, personal, fuel).value;
    if raw.xy !in dwidToDept {
      assert Evicted(t, groups) == t by {
        assert WithoutTeacherGroups(t.groups, groups) == t.groups;
      }
    }
  }

  function Lookup(teachers: Teachers, username: string): Option<Teacher> {
    if username in teachers then Some(teachers[username]) else None
  }

  /** The loop over all TeacherInformation rows, one after another. */
  function SyncedAll(teachers: Teachers, raws: seq<RawTeacher>, deps: Departments, groups: Groups, ng: nat,
                     dwidToDept: map<string, DeptId>, admin: AdminMap, personal: GroupId, fuel: nat): (r: Result<Teachers>)
    ensures r.Success? ==> teachers.Keys <= r.value.Keys
    decreases |raws|
  {
    if raws == [] then Success(teachers)
    else
      var before :- SyncedAll(teachers, raws[..|raws| - 1], deps, groups, ng, dwidToDept, admin, personal, fuel);
      var last := raws[|raws| - 1];
      var t :- SyncedTeacher(Lookup(before, last.zgh), last, deps, groups, ng, dwidToDept, admin, personal, fuel);
      Success(before[last.zgh := t])
  }

  /** When one row fails, the whole loop fails. */
  lemma {:induction false} SyncedAllPrefixFails(teachers: Teachers, raws: seq<RawTeacher>, deps: Departments, groups: Groups, ng: nat,
                                                dwidToDept: map<string, DeptId>, admin: AdminMap, personal: GroupId, fuel: nat, k: nat)
    requires k <= |raws| && SyncedAll(teachers, raws[..k], deps, groups, ng, dwidToDept, admin, personal, fuel).Failure?
    ensures SyncedAll(teachers, raws, deps, groups, ng, dwidToDept, admin, personal, fuel).Failure?
    decreases |raws|
  {
    if k < |raws| {
      var init := raws[..|raws| - 1];
      assert init[..k] == raws[..k];
      SyncedAllPrefixFails(teachers, init, deps, groups, ng, dwidToDept, admin, personal, fuel, k);
    } else {
      assert raws[..k] == raws;
    }
  }

  /** Some row carries staff number `u`. */
  ghost predicate Names(raws: seq<RawTeacher>, u: string) {
    exists i :: 0 <= i < |raws| && raws[i].zgh == u
  }

  /** After the loop there is a user for every staff number and no other
      new one. */
  lemma {:induction false} SyncedAllUsers(teachers: Teachers, raws: seq<RawTeacher>, deps: Departments, groups: Groups, ng: nat,
                                          dwidToDept: map<string, DeptId>, admin: AdminMap, personal: GroupId, fuel: nat)
    requires SyncedAll(teachers, raws, deps, groups, ng, dwidToDept, admin, personal, fuel).Success?
    ensures forall u :: u in SyncedAll(teachers, raws, deps, groups, ng, dwidToDept, admin, personal, fuel).value <==>
                        u in teachers || Names(raws, u)
    decreases |raws|
  {
    if raws != [] {
      var init, last := raws[..|raws| - 1], raws[|raws| - 1];
      SyncedAllUsers(teachers, init, deps, groups, ng, dwidToDept, admin, personal, fuel);
      forall u ensures Names(raws, u) <==> Names(init, u) || last.zgh == u {
        if Names(raws, u) {
          var i :| 0 <= i < |raws| && raws[i].zgh == u;
          if i < |init| {
            assert init[i] == raws[i];
          }
        }
        if Names(init, u) {
          var i :| 0 <= i < |init| && init[i].zgh == u;
          assert raws[i] == init[i];
        }
      }
    }
  }

  /** The loop leaves the users whom no row names as they were. */
  lemma {:induction false} SyncedAllLeavesOthers(teachers: Teachers, raws: seq<RawTeacher>, deps: Departments, groups: Groups, ng: nat,
                                                 dwidToDept: map<string, DeptId>, admin: AdminMap, personal: GroupId, fuel: nat, u: string)
    requires SyncedAll(teachers, raws, deps, groups, ng, dwidToDept, admin, personal, fuel).Success?
    requires u in teachers && forall i :: 0 <= i < |raws| ==> raws[i].zgh != u
    ensures u in SyncedAll(teachers, raws, deps, groups, ng, dwidToDept, admin, personal, fuel).value
    ensures SyncedAll(teachers, raws, deps, groups, ng, dwidToDept, admin, personal, fuel).value[u] == teachers[u]
    decreases |raws|
  {
    if raws != [] {
      var init := raws[..|raws| - 1];
      assert forall i :: 0 <= i < |init| ==> init[i] == raws[i];
      SyncedAllLeavesOthers(teachers, init, deps, groups, ng, dwidToDept, admin, personal, fuel, u);
    }
  }

  /** Every user ends as the last row that names them left them: with that
      row's name, and synced once more from it would not change. */
  lemma {:induction false} SyncedAllLastRowWins(teachers: Teachers, raws: seq<RawTeacher>, deps: Departments, groups: Groups, ng: nat,
                                                dwidToDept: map<string, DeptId>, admin: AdminMap, personal: GroupId, fuel: nat, i: nat)
    requires SyncedAll(teachers, raws, deps, groups, ng, dwidToDept, admin, personal, fuel).Success?
    requires i < |raws| && forall j :: i < j < |raws| ==> raws[j].zgh != raws[i].zgh
    ensures var r := SyncedAll(teachers, raws, deps, groups, ng, dwidToDept, admin, personal, fuel).value;
            && raws[i].zgh in r && r[raws[i].zgh].firstName == raws[i].jsxm
            && SyncedTeacher(Some(r[raws[i].zgh]), raws[i], deps, groups, ng, dwidToDept, admin, personal, fuel) == Success(r[raws[i].zgh])
    decreases |raws|
  {
    var init, last := raws[..|raws| - 1], raws[|raws| - 1];
    var before := SyncedAll(teachers, init, deps, groups, ng, dwidToDept, admin, personal, fuel).value;
    if i == |raws| - 1 {
      SyncedTeacherIdempotent(Lookup(before, last.zgh), last, deps, groups, ng, dwidToDept, admin, personal, fuel);
    } else {
      assert init[i] == raws[i];
      assert forall j :: i < j < |init| ==> init[j] == raws[j];
      SyncedAllLastRowWins(teachers, init, deps, groups, ng, dwidToDept, admin, personal, fuel, i);
    }
  }

  // ---------------------------------------------------------------------
  // The passes of the department loop

  /** What one pass of the department loop leaves behind: the department it
      synced, the provisional administrative department it wrote and the
      departments table right after the pass. */
  datatype RowSync = RowSync(dept: DeptId, administrative: DeptId, state: Departments)

  /** The pass of `raw` as the loop body makes it: the row's department
      carries the row's name and type and a super department with the row's
      `lsdw` (after the default when it had to change), and the entry is
      InitialAdministrative of the table as the pass left it. */
  ghost predicate RowSynced(s: RowSync, raw: RawDepartment, dlut: DeptId) {
    && s.dept in s.state && s.state[s.dept].rawId == raw.dwid
    && s.state[s.dept].name == raw.dwmc && s.state[s.dept].departmentType == raw.dwlx
    && s.state[s.dept].parent.Some? && s.state[s.dept].parent.value in s.state
    && s.state[s.state[s.dept].parent.value].rawId in {raw.lsdw, DefaultSuper(raw.lsdw)}
    && InitialAdministrative(s.state, dlut, s.dept) == Success(s.administrative)
  }

  /** No later row of `raws` names the same department id as row `j`. */
  predicate LastRow(raws: seq<RawDepartment>, j: nat)
    requires j < |raws|
  {
    forall k :: j < k < |raws| ==> raws[k].dwid != raws[j].dwid
  }

  /** The passes made so far, one per row of a prefix of `raws`, against the
      table `deps` as it now stands: each row's raw id finds the department
      its pass synced, and a department whose last pass so far is row `j`
      is as that pass left it. */
  ghost predicate PassesOk(raws: seq<RawDepartment>, trace: seq<RowSync>, deps: Departments, n: nat, dlut: DeptId)
    requires |trace| <= |raws|
  {
    && (forall j :: 0 <= j < |trace| ==>
          RowSynced(trace[j], raws[j], dlut) && FindRaw(deps, raws[j].dwid, n) == Some(trace[j].dept))
    && (forall j :: 0 <= j < |trace| && LastRow(raws[..|trace|], j) ==>
          trace[j].dept in deps && deps[trace[j].dept] == trace[j].state[trace[j].dept])
  }

  /** One more pass keeps the earlier ones: lookups of earlier rows find the
      same departments in the extended table, and a pass changes no other
      department than its own, which no earlier row with another raw id
      can name. */
  lemma PassStep(raws: seq<RawDepartment>, trace: seq<RowSync>, d0: Departments, n0: nat,
                 deps: Departments, n: nat, dlut: DeptId, s: RowSync)
    requires |trace| < |raws| && PassesOk(raws, trace, d0, n0, dlut)
    requires IdsBelow(d0, n0) && Extends(d0, n0, deps, n)
    requires s.state == deps && RowSynced(s, raws[|trace|], dlut) && FindRaw(deps, raws[|trace|].dwid, n) == Some(s.dept)
    requires forall e :: e in d0 && e != s.dept ==> deps[e] == d0[e]
    ensures PassesOk(raws, trace + [s], deps, n, dlut)
  {
    var i := |trace|;
    var trace' := trace + [s];
    forall j | 0 <= j < i
      ensures FindRaw(deps, raws[j].dwid, n) == FindRaw(d0, raws[j].dwid, n0)
    {
      FindRawKeeps(d0, n0, deps, n, raws[j].dwid, n);
    }
    forall j | 0 <= j < i + 1 && LastRow(raws[..i + 1], j)
      ensures trace'[j].dept in deps && deps[trace'[j].dept] == trace'[j].state[trace'[j].dept]
    {
      if j < i {
        assert trace'[j] == trace[j];
        assert raws[..i + 1][i] == raws[i] && raws[..i + 1][j] == raws[j];
        assert LastRow(raws[..i], j) by {
          forall k | j < k < i ensures raws[..i][k].dwid != raws[..i][j].dwid {
            assert raws[..i + 1][k] == raws[..i][k];
          }
        }
        assert trace[j].dept != s.dept by {
          assert FindRaw(deps, raws[j].dwid, n) == Some(trace[j].dept);
        }
      }
    }
    assert forall j :: 0 <= j < i ==> trace'[j] == trace[j];
  }

  /** department_id_to_administrative after the passes: each pass writes the
      entry of its department, a later pass of the same department
      overwriting an earlier one. */
  function Collected(trace: seq<RowSync>): (m: AdminMap)
    ensures m.Keys == set i | 0 <= i < |trace| :: trace[i].dept
    ensures forall i :: 0 <= i < |trace| && (forall k :: i < k < |trace| ==> trace[k].dept != trace[i].dept) ==>
              m[trace[i].dept] == trace[i].administrative
    decreases |trace|
  {
    if trace == [] then map[]
    else
      var init, last := trace[..|trace| - 1], trace[|trace| - 1];
      var m := Collected(init)[last.dept := last.administrative];
      assert forall i :: 0 <= i < |init| ==> init[i] == trace[i];
      assert (set i | 0 <= i < |trace| :: trace[i].dept) == (set i | 0 <= i < |init| :: init[i].dept) + {last.dept};
      m
  }

  /** update_administrative's result on the provisional map `entries`:
      every entry leads to another entry, some rank orders the walks (so
      they stop), and `admin` holds every entry's terminal, which does not
      depend on the rank (TerminalsAnyRank). */
  ghost predicate Resolved(entries: AdminMap, admin: AdminMap) {
    Closed(entries) && exists rank :: Ranked(entries, rank) && admin == Terminals(entries, rank)
  }

  /** The administrative map update_administrative leaves sends every
      department to one that is its own administrative department. */
  lemma ResolvedIsFixed(entries: AdminMap, admin: AdminMap)
    requires Resolved(entries, admin)
    ensures admin.Keys == entries.Keys
    ensures forall k :: k in admin ==> admin[k] in admin && admin[admin[k]] == admin[k]
  {
    var rank :| Ranked(entries, rank) && admin == Terminals(entries, rank);
    TerminalsAreFixed(entries, rank);
    forall k | k in admin ensures admin[k] in admin && admin[admin[k]] == admin[k] {
      assert k in entries;
    }
  }

  /** The second loop's map: the raw id of every row but the school's, and
      no other, mapped to the department found by it. */
  ghost predicate LooksUp(departments: Departments, nextDeptId: nat, table: seq<RawDepartment>,
                          dwidToDept: map<string, DeptId>)
  {
    && (forall i :: 0 <= i < |table| && table[i].dwid != DlutId ==> table[i].dwid in dwidToDept)
    && (forall w :: w in dwidToDept ==> exists i :: 0 <= i < |table| && table[i].dwid == w && w != DlutId)
    && (forall w :: w in dwidToDept ==> FindRaw(departments, w, nextDeptId) == Some(dwidToDept[w]))
  }

  /** The state _update_from_department_information leaves, given the
      passes it made: one pass per row but the school's (PassesOk over all
      of them: every department as its last pass left it), the
      administrative map resolved from the entries the passes wrote, and
      the lookups of the second loop. */
  ghost predicate DepartmentsSynced(departments: Departments, nextDeptId: nat, table: seq<RawDepartment>,
                                    trace: seq<RowSync>, dwidToDept: map<string, DeptId>, admin: AdminMap)
  {
    && FindRaw(departments, DlutId, nextDeptId).Some?
    && |trace| == |WithoutSchool(table)|
    && PassesOk(WithoutSchool(table), trace, departments, nextDeptId, FindRaw(departments, DlutId, nextDeptId).value)
    && Resolved(Collected(trace), admin)
    && LooksUp(departments, nextDeptId, table, dwidToDept)
  }

  /** The second loop's lookups, over the rows but the school's, give the
      map LooksUp describes. */
  lemma LooksUpOf(departments: Departments, nextDeptId: nat, table: seq<RawDepartment>, raws: seq<RawDepartment>,
                  dwidToDept: map<string, DeptId>)
    requires raws == WithoutSchool(table)
    requires forall raw :: raw in raws ==> raw.dwid in dwidToDept
    requires forall w :: w in dwidToDept ==> exists j :: 0 <= j < |raws| && raws[j].dwid == w
    requires forall w :: w in dwidToDept ==> FindRaw(departments, w, nextDeptId) == Some(dwidToDept[w])
    ensures LooksUp(departments, nextDeptId, table, dwidToDept)
  {
    forall i | 0 <= i < |table| && table[i].dwid != DlutId ensures table[i].dwid in dwidToDept {
      assert table[i] in raws;
    }
    forall w | w in dwidToDept ensures exists i :: 0 <= i < |table| && table[i].dwid == w && w != DlutId {
      var j :| 0 <= j < |raws| && raws[j].dwid == w;
      assert raws[j] in table;
    }
  }

  // ---------------------------------------------------------------------
  // The tables the synchronisation updates

  /** The Department, Group, User and UserGroup tables, with the departments
      whose model permissions have been assigned. */
  class Directory {
    var departments: Departments
    var nextDeptId: nat
    var groups: Groups
    var nextGroupId: nat
    var modelPerms: set<DeptId>
    var teachers: Teachers

    ghost predicate Valid()
      reads this
    {
      DirectoryOk(departments, nextDeptId, groups, nextGroupId)
    }

    constructor ()
      ensures Valid()
      ensures departments == map[] && nextDeptId == 0 && groups == map[] && nextGroupId == 0
      ensures modelPerms == {} && teachers == map[]
    {
      departments, nextDeptId := map[], 0;
      groups, nextGroupId := map[], 0;
      modelPerms, teachers := {}, map[];
    }

    /** `Department.objects.get_or_create(raw_department_id=..., defaults={'name': ...})`:
        the department with that raw id, or a new one without a super
        department and with an empty type. */
    method GetOrCreateDepartment(rawId: string, name: string) returns (d: DeptId, created: bool)
      requires Valid()
      modifies this
      ensures Valid() && d in departments && departments[d].rawId == rawId
      ensures FindRaw(departments, rawId, nextDeptId) == Some(d)
      ensures created <==> FindRaw(old(departments), rawId, old(nextDeptId)).None?
      ensures !created ==> Some(d) == FindRaw(old(departments), rawId, old(nextDeptId))
                           && departments == old(departments) && nextDeptId == old(nextDeptId)
      ensures created ==> d == old(nextDeptId) && nextDeptId == d + 1
                          && departments == old(departments)[d := Department(rawId, name, "", None)]
      ensures groups == old(groups) && nextGroupId == old(nextGroupId)
      ensures modelPerms == old(modelPerms) && teachers == old(teachers)
    {
      var found := FindRaw(departments, rawId, nextDeptId);
      if found.Some? {
        return found.value, false;
      }
      d, created := nextDeptId, true;
      FindRawIgnoresNew(departments, rawId, d, Department(rawId, name, "", None), d);
      NewDepartmentOk(departments, nextDeptId, groups, nextGroupId, Department(rawId, name, "", None));
      departments := departments[d := Department(rawId, name, "", None)];
      nextDeptId := d + 1;
    }

    /** `Group.objects.get_or_create(name=...)`. */
    method GetOrCreateGroup(name: string) returns (g: GroupId)
      requires Valid()
      modifies this
      ensures Valid() && g in groups && groups[g] == name
      ensures FindGroup(groups, name, nextGroupId) == Some(g)
      ensures GroupsGrow(old(groups), groups) && old(nextGroupId) <= nextGroupId
      ensures forall h :: h in groups && h !in old(groups) ==> groups[h] == name
      ensures FindGroup(old(groups), name, old(nextGroupId)).Some? ==>
                Some(g) == FindGroup(old(groups), name, old(nextGroupId)) && groups == old(groups) && nextGroupId == old(nextGroupId)
      ensures FindGroup(old(groups), name, old(nextGroupId)).None? ==>
                g == old(nextGroupId) && groups == old(groups)[g := name] && nextGroupId == g + 1
      ensures departments == old(departments) && nextDeptId == old(nextDeptId)
      ensures modelPerms == old(modelPerms) && teachers == old(teachers)
    {
      var found := FindGroup(groups, name, nextGroupId);
      if found.Some? {
        return found.value;
      }
      g := nextGroupId;
      FindGroupIgnoresNew(groups, name, g, name, g);
      NewGroupOk(departments, nextDeptId, groups, nextGroupId, name);
      groups := groups[g := name];
      nextGroupId := g + 1;
    }

    /** update_group_and_perms: the department's administrator and teacher
        groups exist afterwards, and a new department gets its model
        permissions. */
    method UpdateGroupAndPerms(d: DeptId, created: bool)
      requires Valid() && d in departments
      modifies this
      ensures departments == old(departments) && nextDeptId == old(nextDeptId) && teachers == old(teachers)
      ensures Valid()
      ensures FindGroup(groups, GroupName(departments[d], AdminSuffix), nextGroupId).Some?
      ensures FindGroup(groups, GroupName(departments[d], TeacherSuffix), nextGroupId).Some?
      ensures GroupsGrow(old(groups), groups) && old(nextGroupId) <= nextGroupId
      ensures forall g :: g in groups && g !in old(groups) ==>
                groups[g] == GroupName(departments[d], AdminSuffix) || groups[g] == GroupName(departments[d], TeacherSuffix)
      ensures modelPerms == if created then old(modelPerms) + {d} else old(modelPerms)
    {
      var adminName, teacherName := GroupName(departments[d], AdminSuffix), GroupName(departments[d], TeacherSuffix);
      var a := GetOrCreateGroup(adminName);
      var middle, m := groups, nextGroupId;
      var t := GetOrCreateGroup(teacherName);
      assert a in groups && groups[a] == adminName && a < nextGroupId;
      if created {
        modelPerms := modelPerms + {d};
      }
    }

    /** The eviction loop: the teachers of every leaf leave their teacher
        groups and their department. */
    method EvictTeachers(leaves: seq<DeptId>)
      modifies this
      ensures teachers == EvictAll(old(teachers), groups, leaves)
      ensures departments == old(departments) && nextDeptId == old(nextDeptId)
      ensures groups == old(groups) && nextGroupId == old(nextGroupId) && modelPerms == old(modelPerms)
    {
      for i := 0 to |leaves|
        invariant teachers == EvictAll(old(teachers), groups, leaves[..i])
        invariant departments == old(departments) && nextDeptId == old(nextDeptId)
        invariant groups == old(groups) && nextGroupId == old(nextGroupId) && modelPerms == old(modelPerms)
      {
        assert leaves[..i + 1][..i] == leaves[..i];
        teachers := EvictFrom(teachers, groups, leaves[i]);
      }
      assert leaves[..|leaves|] == leaves;
    }

    /** The super department with raw id `lsdw`, created with its groups
        when missing. A department it creates has no super department, so
        it adds no leaf anywhere. */
    method GetOrCreateSuper(lsdw: string, name: string) returns (sd: DeptId)
      requires Valid()
      modifies this
      ensures Valid() && sd in departments && departments[sd].rawId == lsdw
      ensures Extends(old(departments), old(nextDeptId), departments, nextDeptId)
      ensures forall e :: e in old(departments) ==> e in departments && departments[e] == old(departments)[e]
      ensures forall e, fuel: nat :: Leaves(departments, nextDeptId, e, fuel) == Leaves(old(departments), old(nextDeptId), e, fuel)
      ensures GroupsGrow(old(groups), groups) && teachers == old(teachers)
    {
      var before, n := departments, nextDeptId;
      var created;
      sd, created := GetOrCreateDepartment(lsdw, name);
      if created {
        forall e, fuel: nat ensures Leaves(departments, nextDeptId, e, fuel) == Leaves(before, n, e, fuel) {
          LeavesIgnoreNewRoot(before, n, Department(lsdw, name, "", None), e, fuel);
        }
      }
      UpdateGroupAndPerms(sd, created);
    }

    /** find_all_child_department of `p` and the eviction of the teachers of
        every leaf it returns. */
    method EvictBelow(p: DeptId, fuel: nat) returns (r: Result<()>)
      modifies this
      ensures r.Failure? <==> Leaves(departments, nextDeptId, p, fuel).Failure?
      ensures r.Success? ==> teachers == EvictAll(old(teachers), groups, Leaves(departments, nextDeptId, p, fuel).value)
      ensures r.Failure? ==> teachers == old(teachers)
      ensures departments == old(departments) && nextDeptId == old(nextDeptId)
      ensures groups == old(groups) && nextGroupId == old(nextGroupId) && modelPerms == old(modelPerms)
    {
      var leaves :- Leaves(departments, nextDeptId, p, fuel);
      EvictTeachers(leaves);
      r := Success(());
    }

    /** The new super department of `d`: `lsdw` after the default, created
        (with its groups) when missing; the teachers of every leaf below the
        old super department are evicted first. Leaves below a cycle are
        reported as Diverges after `nextDeptId` levels. */
    method Reparent(d: DeptId, raw: RawDepartment, table: seq<RawDepartment>) returns (r: Result<()>)
      requires Valid() && d in departments
      modifies this
      ensures Valid() && Extends(old(departments), old(nextDeptId), departments, nextDeptId) && GroupsGrow(old(groups), groups)
      ensures r.Failure? <==>
                || SuperName(table, DefaultSuper(raw.lsdw)).Failure?
                || (old(departments)[d].parent.Some? &&
                    Leaves(old(departments), old(nextDeptId), old(departments)[d].parent.value, old(nextDeptId)).Failure?)
      ensures r.Success? ==>
                && departments[d] == old(departments)[d].(parent := departments[d].parent)
                && departments[d].parent.Some? && departments[d].parent.value in departments
                && departments[departments[d].parent.value].rawId == DefaultSuper(raw.lsdw)
                && (forall e :: e in old(departments) && e != d ==> departments[e] == old(departments)[e])
      ensures r.Success? ==>
                teachers == if old(departments)[d].parent.None? then old(teachers)
                            else EvictAll(old(teachers), groups,
                                          Leaves(old(departments), old(nextDeptId), old(departments)[d].parent.value, old(nextDeptId)).value)
    {
      var lsdw := DefaultSuper(raw.lsdw);
      var superName :- SuperName(table, lsdw);
      var n := nextDeptId;
      var oldParent := departments[d].parent;
      var sd := GetOrCreateSuper(lsdw, superName);
      if oldParent.Some? {
        var evicted := EvictBelow(oldParent.value, n);
        if evicted.Failure? {
          return Failure(evicted.error);
        }
      }
      ChangedDepartmentOk(departments, nextDeptId, groups, nextGroupId, d, departments[d].(parent := Some(sd)));
      departments := departments[d := departments[d].(parent := Some(sd))];
      r := Success(());
    }

    /** The name sync: when the row has a new name every group named after
        the department is renamed (ValueError when a name does not split
        into three pieces) and the department takes the new name. */
    method SyncName(d: DeptId, raw: RawDepartment) returns (r: Result<()>)
      requires Valid() && d in departments
      modifies this
      ensures Valid() && Extends(old(departments), old(nextDeptId), departments, nextDeptId)
      ensures var prefix := old(departments)[d].name + "-" + old(departments)[d].rawId + "-";
              if old(departments)[d].name == raw.dwmc then r.Success? && groups == old(groups) && departments == old(departments)
              else match RenameAll(old(groups), prefix, raw.dwmc)
                case Failure(e) => r == Failure(e) && groups == old(groups) && departments == old(departments)
                case Success(renamed) => r.Success? && groups == renamed && departments == old(departments)[d := old(departments)[d].(name := raw.dwmc)]
      ensures nextDeptId == old(nextDeptId) && nextGroupId == old(nextGroupId)
      ensures modelPerms == old(modelPerms) && teachers == old(teachers)
    {
      if departments[d].name != raw.dwmc {
        var prefix := departments[d].name + "-" + departments[d].rawId + "-";
        var renamed :- RenameGroups(groups, prefix, raw.dwmc);
        RenamedGroupsOk(departments, nextDeptId, groups, nextGroupId, renamed);
        ChangedDepartmentOk(departments, nextDeptId, renamed, nextGroupId, d, departments[d].(name := raw.dwmc));
        groups := renamed;
        departments := departments[d := departments[d].(name := raw.dwmc)];
      }
      r := Success(());
    }
  
    /** The type sync: the department takes the row's type. */
    method SyncType(d: DeptId, raw: RawDepartment)
      requires Valid() && d in departments
      modifies this
      ensures Valid() && Extends(old(departments), old(nextDeptId), departments, nextDeptId)
      ensures departments == old(departments)[d := old(departments)[d].(departmentType := raw.dwlx)]
      ensures nextDeptId == old(nextDeptId) && groups == old(groups) && nextGroupId == old(nextGroupId)
      ensures modelPerms == old(modelPerms) && teachers == old(teachers)
    {
      if departments[d].departmentType != raw.dwlx {
        ChangedDepartmentOk(departments, nextDeptId, groups, nextGroupId, d, departments[d].(departmentType := raw.dwlx));
        departments := departments[d := departments[d].(departmentType := raw.dwlx)];
      } else {
        assert departments == departments[d := departments[d].(departmentType := raw.dwlx)];
      }
    }

    /** The super department, type and name syncs of department `d`. */
    method SyncFields(d: DeptId, raw: RawDepartment, table: seq<RawDepartment>) returns (r: Result<()>)
      requires Valid() && d in departments
      modifies this
      ensures Valid() && Extends(old(departments), old(nextDeptId), departments, nextDeptId)
      ensures r.Success? ==>
                && departments[d].name == raw.dwmc && departments[d].departmentType == raw.dwlx
                && departments[d].parent.Some? && departments[d].parent.value in departments
                && departments[departments[d].parent.value].rawId in {raw.lsdw, DefaultSuper(raw.lsdw)}
      ensures r.Success? ==> forall e :: e in old(departments) && e != d ==> departments[e] == old(departments)[e]
    {
      ghost var d0, n0 := departments, nextDeptId;
      if ParentChanges(departments, d, raw.lsdw) {
        r := Reparent(d, raw, table);
        if r.Failure? {
          return;
        }
      }
      ghost var d1, n1 := departments, nextDeptId;
      SyncType(d, raw);
      ExtendsTrans(d0, n0, d1, n1, departments, nextDeptId);
      ghost var d2, n2 := departments, nextDeptId;
      r := SyncName(d, raw);
      ExtendsTrans(d0, n0, d2, n2, departments, nextDeptId);
    }

    /** One pass of the department loop: get_or_create of the row's
        department with its groups, then the super department, type and name
        syncs, then the department's provisional administrative department. */
    method SyncDepartment(raw: RawDepartment, dlut: DeptId, table: seq<RawDepartment>) returns (r: Result<(DeptId, DeptId)>)
      requires Valid()
      modifies this
      ensures Valid() && Extends(old(departments), old(nextDeptId), departments, nextDeptId)
      ensures r.Success? ==>
                && FindRaw(departments, raw.dwid, nextDeptId) == Some(r.value.0)
                && RowSynced(RowSync(r.value.0, r.value.1, departments), raw, dlut)
                && forall e :: e in old(departments) && e != r.value.0 ==> departments[e] == old(departments)[e]
    {
      ghost var d0, n0 := departments, nextDeptId;
      var d, created := GetOrCreateDepartment(raw.dwid, raw.dwmc);
      UpdateGroupAndPerms(d, created);
      ghost var d1, n1 := departments, nextDeptId;
      assert Extends(d0, n0, d1, n1);
      var synced := SyncFields(d, raw, table);
      ExtendsTrans(d0, n0, d1, n1, departments, nextDeptId);
      if synced.Failure? {
        return Failure(synced.error);
      }
      FindRawStable(d1, n1, departments, nextDeptId, raw.dwid, n1);
      FindRawKeeps(d1, n1, departments, nextDeptId, raw.dwid, nextDeptId);
      var administrative :- InitialAdministrative(departments, dlut, d);
      r := Success((d, administrative));
    }
  
    /** _update_from_department_information: every row but the school's own
        is synced, the administrative map is resolved, and every row's raw
        id is looked up again. `trace` records the passes of the first loop. */
    method SyncDepartments(table: seq<RawDepartment>)
      returns (r: Result<(map<string, DeptId>, AdminMap)>, ghost trace: seq<RowSync>)
      requires Valid()
      modifies this
      ensures Valid() && Extends(old(departments), old(nextDeptId), departments, nextDeptId)
      ensures r.Success? ==> DepartmentsSynced(departments, nextDeptId, table, trace, r.value.0, r.value.1)
    {
      ghost var d0, n0 := departments, nextDeptId;
      var dlut, _ := GetOrCreateDepartment(DlutId, DlutName);
      ghost var d1, n1 := departments, nextDeptId;
      var raws := WithoutSchool(table);
      var rows;
      rows, trace := SyncRows(raws, dlut, table);
      ExtendsTrans(d0, n0, d1, n1, departments, nextDeptId);
      if rows.Failure? {
        return Failure(rows.error), trace;
      }
      var entries := rows.value;
      var resolved := UpdateAdministrative(entries);
      if resolved.Failure? {
        return Failure(resolved.error), trace;
      }
      var admin := resolved.value;
      assert Resolved(entries, admin) by {
        assert Ranked(entries, StepRank(entries));
      }
      FindRawKeeps(d1, n1, departments, nextDeptId, DlutId, nextDeptId);
      var dwidToDept := LookUpAll(raws, entries.Keys);
      LooksUpOf(departments, nextDeptId, table, raws, dwidToDept);
      r := Success((dwidToDept, admin));
    }

    /** The first loop over the rows: one pass per row, each recorded in
        `trace`, and the map the passes write. Every department ends as the
        last pass that synced it left it. */
    method SyncRows(raws: seq<RawDepartment>, dlut: DeptId, table: seq<RawDepartment>)
      returns (r: Result<AdminMap>, ghost trace: seq<RowSync>)
      requires Valid()
      modifies this
      ensures Valid() && Extends(old(departments), old(nextDeptId), departments, nextDeptId)
      ensures r.Success? ==> |trace| == |raws| && r.value == Collected(trace) && PassesOk(raws, trace, departments, nextDeptId, dlut)
    {
      var entries: AdminMap := map[];
      trace := [];
      for i := 0 to |raws|
        invariant Valid() && Extends(old(departments), old(nextDeptId), departments, nextDeptId)
        invariant |trace| == i && entries == Collected(trace)
        invariant PassesOk(raws, trace, departments, nextDeptId, dlut)
      {
        ghost var d0, n0 := departments, nextDeptId;
        var pass := SyncDepartment(raws[i], dlut, table);
        ExtendsTrans(old(departments), old(nextDeptId), d0, n0, departments, nextDeptId);
        if pass.Failure? {
          return Failure(pass.error), trace;
        }
        var synced := pass.value;
        PassStep(raws, trace, d0, n0, departments, nextDeptId, dlut, RowSync(synced.0, synced.1, departments));
        trace := trace + [RowSync(synced.0, synced.1, departments)];
        entries := entries[synced.0 := synced.1];
        assert trace[..i] == trace[..|trace| - 1];
      }
      r := Success(entries);
    }

    /** The second loop over the rows: get_or_create of every row's
        department once more, which finds the one the first loop synced. */
    method LookUpAll(raws: seq<RawDepartment>, ghost known: set<DeptId>) returns (dwidToDept: map<string, DeptId>)
      requires Valid()
      requires forall j :: 0 <= j < |raws| ==>
                 FindRaw(departments, raws[j].dwid, nextDeptId).Some? && FindRaw(departments, raws[j].dwid, nextDeptId).value in known
      modifies this
      ensures forall raw :: raw in raws ==> raw.dwid in dwidToDept
      ensures forall w :: w in dwidToDept ==> exists j :: 0 <= j < |raws| && raws[j].dwid == w
      ensures forall w :: w in dwidToDept ==> FindRaw(departments, w, nextDeptId) == Some(dwidToDept[w]) && dwidToDept[w] in known
      ensures departments == old(departments) && nextDeptId == old(nextDeptId)
      ensures groups == old(groups) && nextGroupId == old(nextGroupId)
      ensures modelPerms == old(modelPerms) && teachers == old(teachers)
    {
      dwidToDept := map[];
      for i := 0 to |raws|
        invariant Valid()
        invariant departments == old(departments) && nextDeptId == old(nextDeptId)
        invariant groups == old(groups) && nextGroupId == old(nextGroupId)
        invariant modelPerms == old(modelPerms) && teachers == old(teachers)
        invariant forall j :: 0 <= j < i ==> raws[j].dwid in dwidToDept
        invariant forall w :: w in dwidToDept ==> exists j :: 0 <= j < i && raws[j].dwid == w
        invariant forall w :: w in dwidToDept ==> FindRaw(departments, w, nextDeptId) == Some(dwidToDept[w]) && dwidToDept[w] in known
      {
        var d, _ := GetOrCreateDepartment(raws[i].dwid, raws[i].dwmc);
        dwidToDept := dwidToDept[raws[i].dwid := d];
      }
    }

    /** One pass of the teacher loop, as SyncedTeacher states it; walks
        longer than there are department ids are reported as Diverges. */
    method SyncTeacher(raw: RawTeacher, dwidToDept: map<string, DeptId>, admin: AdminMap, personal: GroupId) returns (r: Result<()>)
      modifies this
      ensures var s := SyncedTeacher(Lookup(old(teachers), raw.zgh), raw, departments, groups, nextGroupId,
                                     dwidToDept, admin, personal, nextDeptId);
              r.Success? <==> s.Success?
      ensures var s := SyncedTeacher(Lookup(old(teachers), raw.zgh), raw, departments, groups, nextGroupId,
                                     dwidToDept, admin, personal, nextDeptId);
              r.Success? ==> teachers == old(teachers)[raw.zgh := s.value]
      ensures var s := SyncedTeacher(Lookup(old(teachers), raw.zgh), raw, departments, groups, nextGroupId,
                                     dwidToDept, admin, personal, nextDeptId);
              r.Failure? ==> r.error == s.error && teachers == old(teachers)
      ensures departments == old(departments) && nextDeptId == old(nextDeptId)
      ensures groups == old(groups) && nextGroupId == old(nextGroupId) && modelPerms == old(modelPerms)
    {
      var user := if raw.zgh in teachers then teachers[raw.zgh] else NewTeacher(personal);
      user := user.(firstName := raw.jsxm);
      if raw.xy !in dwidToDept {
        user := user.(groups := WithoutTeacherGroups(user.groups, groups), department := None);
      } else if user.department != Some(dwidToDept[raw.xy]) {
        var kept := user.groups;
        if user.department.Some? {
          var removed :- WalkGroups(departments, groups, nextGroupId, user.department.value, nextDeptId);
          kept := kept - Elems(removed);
        } else {
          assert kept - Elems([]) == kept;
        }
        var d := dwidToDept[raw.xy];
        if d !in admin {
          return Failure(KeyError);
        }
        var added :- WalkGroups(departments, groups, nextGroupId, d, nextDeptId);
        user := user.(groups := kept + Elems(added), department := Some(d), administrative := Some(admin[d]));
      }
      teachers := teachers[raw.zgh := user];
      r := Success(());
    }

    /** _update_from_teacher_information: the personal permission group is
        fetched or created, then every TeacherInformation row is synced. */
    method SyncTeachers(raws: seq<RawTeacher>, dwidToDept: map<string, DeptId>, admin: AdminMap) returns (r: Result<()>)
      requires Valid()
      modifies this
      ensures Valid()
      ensures FindGroup(groups, PersonalGroupName, nextGroupId).Some?
      ensures var s := SyncedAll(old(teachers), raws, departments, groups, nextGroupId, dwidToDept, admin,
                                 FindGroup(groups, PersonalGroupName, nextGroupId).value, nextDeptId);
              && (r.Success? <==> s.Success?)
              && (r.Success? ==> teachers == s.value)
      ensures FindRaw(old(departments), DlutId, old(nextDeptId)).Some? ==>
                departments == old(departments) && nextDeptId == old(nextDeptId)
    {
      var _, _ := GetOrCreateDepartment(DlutId, DlutName);
      var personal := GetOrCreateGroup(PersonalGroupName);
      ghost var start, deps, n := teachers, departments, nextDeptId;
      for i := 0 to |raws|
        invariant Valid()
        invariant departments == deps && nextDeptId == n
        invariant FindGroup(groups, PersonalGroupName, nextGroupId) == Some(personal)
        invariant SyncedAll(start, raws[..i], departments, groups, nextGroupId, dwidToDept, admin, personal, nextDeptId) == Success(teachers)
      {
        var one := SyncTeacher(raws[i], dwidToDept, admin, personal);
        assert raws[..i + 1][..i] == raws[..i];
        if one.Failure? {
          SyncedAllPrefixFails(start, raws, departments, groups, nextGroupId, dwidToDept, admin, personal, nextDeptId, i + 1);
          return one;
        }
      }
      assert raws[..|raws|] == raws;
      r := Success(());
    }

    /** The two steps of update_teachers_and_departments_information: the
        departments are synced (its passes in `trace`, its maps `dwidToDept`
        and `admin`), then the teachers, starting from `evicted`, the
        teachers as the department sync left them. */
    method SyncBoth(table: seq<RawDepartment>, rawTeachers: seq<RawTeacher>)
      returns (r: Result<()>, ghost trace: seq<RowSync>, ghost dwidToDept: map<string, DeptId>,
               ghost admin: AdminMap, ghost evicted: Teachers)
      requires Valid()
      modifies this
      ensures Valid()
      ensures r.Success? ==> DepartmentsSynced(departments, nextDeptId, table, trace, dwidToDept, admin)
      ensures r.Success? ==>
                && FindGroup(groups, PersonalGroupName, nextGroupId).Some?
                && var s := SyncedAll(evicted, rawTeachers, departments, groups, nextGroupId, dwidToDept, admin,
                                      FindGroup(groups, PersonalGroupName, nextGroupId).value, nextDeptId);
                   s.Success? && teachers == s.value
    {
      var synced;
      synced, trace := SyncDepartments(table);
      if synced.Failure? {
        return Failure(synced.error), trace, map[], map[], teachers;
      }
      dwidToDept, admin, evicted := synced.value.0, synced.value.1, teachers;
      r := SyncTeachers(rawTeachers, synced.value.0, synced.value.1);
    }

    /** update_teachers_and_departments_information, one transaction: on
        any failure every table is as it was before; on success the tables
        are as SyncBoth states, and every staff number has a user. */
    method UpdateTeachersAndDepartments(table: seq<RawDepartment>, rawTeachers: seq<RawTeacher>)
      returns (r: Result<()>, ghost trace: seq<RowSync>, ghost dwidToDept: map<string, DeptId>,
               ghost admin: AdminMap, ghost evicted: Teachers)
      requires Valid()
      modifies this
      ensures Valid()
      ensures r.Failure? ==>
                && departments == old(departments) && nextDeptId == old(nextDeptId)
                && groups == old(groups) && nextGroupId == old(nextGroupId)
                && modelPerms == old(modelPerms) && teachers == old(teachers)
      ensures r.Success? ==> DepartmentsSynced(departments, nextDeptId, table, trace, dwidToDept, admin)
      ensures r.Success? ==>
                && FindGroup(groups, PersonalGroupName, nextGroupId).Some?
                && var s := SyncedAll(evicted, rawTeachers, departments, groups, nextGroupId, dwidToDept, admin,
                                      FindGroup(groups, PersonalGroupName, nextGroupId).value, nextDeptId);
                   s.Success? && teachers == s.value
      ensures r.Success? ==> forall i :: 0 <= i < |rawTeachers| ==> rawTeachers[i].zgh in teachers
    {
      var departments0, nextDeptId0, groups0, nextGroupId0 := departments, nextDeptId, groups, nextGroupId;
      var modelPerms0, teachers0 := modelPerms, teachers;
      r, trace, dwidToDept, admin, evicted := SyncBoth(table, rawTeachers);
      if r.Failure? {
        departments, nextDeptId, groups, nextGroupId := departments0, nextDeptId0, groups0, nextGroupId0;
        modelPerms, teachers := modelPerms0, teachers0;
        return;
      }
      SyncedAllUsers(evicted, rawTeachers, departments, groups, nextGroupId, dwidToDept, admin,
                     FindGroup(groups, PersonalGroupName, nextGroupId).value, nextDeptId);
      forall i | 0 <= i < |rawTeachers| ensures rawTeachers[i].zgh in teachers {
        assert Names(rawTeachers, rawTeachers[i].zgh);
      }
    }
  }
}
