/** The helpers of the import script (scripts/data_import.py): the memoised
    group and administrative-department lookups, the walks that put a
    teacher into the teacher groups of their departments, and the pure
    parsers and normalisers of the spreadsheet rows. */
module DataImport {
  import opened Wrappers
  import opened Strings
  import opened Cells
  import opened Org
  import AuthTasks

  const TeacherGroupType: string := "专任教师"
  const AdminGroupType: string := "管理员"

  // ---------------------------------------------------------------------
  // Group names

  /** f'{department.name}-{group_type}'. */
  function ScriptGroupName(dept: Department, groupType: string): string {
    dept.name + "-" + groupType
  }

  /** Unlike the synchronisation job, the script names a group after the
      department's name alone: two departments share the group of a type
      exactly when their names agree. */
  lemma ScriptGroupNameShared(a: Department, b: Department, groupType: string)
    ensures ScriptGroupName(a, groupType) == ScriptGroupName(b, groupType) <==> a.name == b.name
  {
    var sa, sb := ScriptGroupName(a, groupType), ScriptGroupName(b, groupType);
    if sa == sb {
      assert |a.name| == |b.name|;
      assert sa[..|a.name|] == a.name && sb[..|b.name|] == b.name;
    }
  }

  /** The script's group name is the department's name, a '-' and the
      group type. */
  lemma ScriptGroupNameAffixes(dept: Department, groupType: string)
    ensures StartsWith(ScriptGroupName(dept, groupType), dept.name + "-")
    ensures EndsWith(ScriptGroupName(dept, groupType), "-" + groupType)
  {
    var p := dept.name + "-";
    assert ScriptGroupName(dept, groupType) == p + groupType;
    assert (p + groupType)[..|p|] == p;
    assert ScriptGroupName(dept, groupType) == dept.name + ("-" + groupType);
  }

  /** No teacher group is named like an administrator group. */
  lemma TeacherAndAdminGroupsDiffer(a: Department, b: Department)
    ensures ScriptGroupName(a, TeacherGroupType) != ScriptGroupName(b, AdminGroupType)
  {
    var s, t := ScriptGroupName(a, TeacherGroupType), ScriptGroupName(b, AdminGroupType);
    assert s[|s| - 1] == '师' && t[|t| - 1] == '员';
  }

  // ---------------------------------------------------------------------
  // The administrative department

  /** The position get_administrative_department picks on a chain of `len`
      departments from a department up to its root: the department itself
      on a chain of one or two, otherwise the one two levels below the root. */
  function AdminIndex(len: nat): (i: nat)
    requires len >= 1
    ensures i < len && (len < 3 ==> i == 0) && (len >= 3 ==> len - i == 3)
  {
    if len < 3 then 0 else len - 3
  }

  /** get_administrative_department without its memo: the walk up from `d`
      and the pick on it. An unknown department raises DoesNotExist; a walk
      longer than there are departments (only a cycle makes one) is
      reported as Diverges. */
  function AdministrativeOf(deps: Departments, d: DeptId): (r: Result<DeptId>)
    ensures r.Failure? <==> ChainUp(deps, d, |deps|).Failure?
    ensures r.Success? ==> r.value == ChainUp(deps, d, |deps|).value[AdminIndex(|ChainUp(deps, d, |deps|).value|)]
  {
    var c :- ChainUp(deps, d, |deps|);
    Success(c[AdminIndex(|c|)])
  }

  /** On a walk from a department up to a root one never meets a
      department twice: were `c[i]` and `c[j]` the same, so would be every
      pair of entries `k` further on, and the root would have a super
      department. */
  lemma {:induction false} ChainShiftDiffers(deps: Departments, c: seq<DeptId>, i: nat, j: nat, k: nat)
    requires UpPath(deps, c) && i < j && j + k < |c| && c[i + k] != c[j + k]
    ensures c[i] != c[j]
    decreases k
  {
    if k > 0 {
      assert deps[c[i + k - 1]].parent == Some(c[i + k]);
      assert deps[c[j + k - 1]].parent == Some(c[j + k]);
      ChainShiftDiffers(deps, c, i, j, k - 1);
    }
  }

  lemma ChainDistinct(deps: Departments, c: seq<DeptId>, i: nat, j: nat)
    requires UpPath(deps, c) && deps[c[|c| - 1]].parent.None?
    requires i < j < |c|
    ensures c[i] != c[j]
  {
    var k := |c| - 1 - j;
    RootOnlyAtEnd(deps, c, i + k);
    ChainShiftDiffers(deps, c, i, j, k);
  }

  /** What follows an entry of a walk up is a walk up. */
  lemma SuffixUp(deps: Departments, c: seq<DeptId>, e: nat)
    requires UpPath(deps, c) && e < |c|
    ensures UpPath(deps, c[e..]) && c[e..][0] == c[e] && c[e..][|c| - e - 1] == c[|c| - 1]
  {
    var up := c[e..];
    forall i | 0 <= i < |up| - 1 ensures deps[up[i]].parent == Some(up[i + 1]) {
      assert up[i] == c[e + i] && up[i + 1] == c[e + i + 1];
    }
  }

  /** What leads up to an entry of a walk up is a walk up. */
  lemma PrefixUp(deps: Departments, c: seq<DeptId>, e: nat)
    requires UpPath(deps, c) && e < |c|
    ensures UpPath(deps, c[..e + 1]) && c[..e + 1][0] == c[0] && c[..e + 1][e] == c[e]
  {
    var walk := c[..e + 1];
    forall i | 0 <= i < |walk| - 1 ensures deps[walk[i]].parent == Some(walk[i + 1]) {
      assert walk[i] == c[i] && walk[i + 1] == c[i + 1];
    }
  }

  /** The administrative department is `d` itself or an ancestor at most
      two levels below the root: the walk up from it has three entries, or
      is `d`'s own walk when that has fewer. */
  lemma AdministrativeNearRoot(deps: Departments, d: DeptId)
    requires AdministrativeOf(deps, d).Success?
    ensures var c := ChainUp(deps, d, |deps|).value;
            var a := AdministrativeOf(deps, d).value;
            && Below(deps, d, a)
            && ChainUp(deps, a, |deps|) == Success(c[AdminIndex(|c|)..])
            && |c[AdminIndex(|c|)..]| == (if |c| < 3 then |c| else 3)
            && (|c| < 3 ==> a == d)
  {
    var c := ChainUp(deps, d, |deps|).value;
    assert UpPath(deps, c) && c[0] == d && deps[c[|c| - 1]].parent.None? && |c| <= |deps| + 1;
    var e := AdminIndex(|c|);
    SuffixUp(deps, c, e);
    ChainUpUnique(deps, c[e], |deps|, c[e..]);
    PrefixUp(deps, c, e);
    assert Below(deps, d, c[e]);
  }

  /** The administrative department is its own administrative department,
      so the lookup is idempotent. */
  lemma AdministrativeIdempotent(deps: Departments, d: DeptId)
    requires AdministrativeOf(deps, d).Success?
    ensures AdministrativeOf(deps, AdministrativeOf(deps, d).value) == AdministrativeOf(deps, d)
  {
    AdministrativeNearRoot(deps, d);
  }

  /** The starting rule of the synchronisation job read along the walk
      `c` up to the school: the departments just below the school, and
      those just below them, map to themselves; every other one to its
      super department. */
  lemma InitialAlongChain(deps: Departments, dlut: DeptId, c: seq<DeptId>, i: nat)
    requires UpPath(deps, c) && c[|c| - 1] == dlut && deps[dlut].parent.None?
    requires i < |c| - 1
    ensures AuthTasks.InitialAdministrative(deps, dlut, c[i]) == Success(if i + 3 >= |c| then c[i] else c[i + 1])
  {
    assert deps[c[i]].parent == Some(c[i + 1]);
    if i + 2 < |c| {
      assert deps[c[i + 1]].parent == Some(c[i + 2]);
      RootOnlyAtEnd(deps, c, i + 1);
      if i + 2 < |c| - 1 {
        RootOnlyAtEnd(deps, c, i + 2);
      }
    }
  }

  /** Along the walk `c` up to the school, a map built by the starting
      rule steps from each department to the next and stops at the
      department get_administrative_department picks. */
  lemma InitialStopsAt(deps: Departments, dlut: DeptId, m: AuthTasks.AdminMap, c: seq<DeptId>)
    requires UpPath(deps, c) && |c| >= 2 && c[|c| - 1] == dlut && deps[dlut].parent.None?
    requires forall i :: 0 <= i < |c| - 1 ==> c[i] in m && AuthTasks.InitialAdministrative(deps, dlut, c[i]) == Success(m[c[i]])
    ensures AuthTasks.StopsAt(m, c[..AdminIndex(|c|) + 1])
  {
    var e := AdminIndex(|c|);
    var path := c[..e + 1];
    forall i | 0 <= i <= e
      ensures path[i] in m && m[path[i]] == (if i == e then path[i] else path[i + 1])
    {
      assert path[i] == c[i];
      InitialAlongChain(deps, dlut, c, i);
    }
    forall i | 0 <= i < e
      ensures m[path[i]] == path[i + 1] && m[path[i]] != path[i]
    {
      assert path[i] == c[i] && path[i + 1] == c[i + 1];
      ChainDistinct(deps, c, i, i + 1);
    }
    assert path[e] == c[e];
    InitialAlongChain(deps, dlut, c, e);
  }

  /** Below a single root every chain climbs past its start and ends at the root. */
  lemma ChainReachesRoot(deps: Departments, dlut: DeptId, d: DeptId)
    requires dlut in deps && forall k :: k in deps ==> (deps[k].parent.None? <==> k == dlut)
    requires d != dlut && ChainUp(deps, d, |deps|).Success?
    ensures var c := ChainUp(deps, d, |deps|).value;
      |c| >= 2 && c[0] == d && c[|c| - 1] == dlut
  {
    var c := ChainUp(deps, d, |deps|).value;
    assert c[|c| - 1] == dlut;
  }

  /** Under the synchronised map the chain from `d` stops exactly at its administrative department. */
  lemma ChainStopsAtAdministrative(deps: Departments, dlut: DeptId, m: AuthTasks.AdminMap, d: DeptId, c: seq<DeptId>)
    requires dlut in deps && forall k :: k in deps ==> (deps[k].parent.None? <==> k == dlut)
    requires d in deps && d != dlut && ChainUp(deps, d, |deps|) == Success(c)
    requires forall k :: k in deps && k != dlut ==> k in m
    requires forall k :: k in m ==> k in deps
    requires forall k {:trigger m[k]} :: k in m ==> AuthTasks.InitialAdministrative(deps, dlut, k) == Success(m[k])
    ensures c[0] == d && AuthTasks.StopsAt(m, c[..AdminIndex(|c|) + 1])
  {
    ChainReachesRoot(deps, dlut, d);
    forall i | 0 <= i < |c| - 1
      ensures c[i] in m && AuthTasks.InitialAdministrative(deps, dlut, c[i]) == Success(m[c[i]])
    {
      RootOnlyAtEnd(deps, c, i);
    }
    InitialStopsAt(deps, dlut, m, c);
  }

  /** The script's rule and the synchronisation job's rule agree. Take a
      tree whose only root is the school. Start from the map that sends
      every other department to itself or to its super department by
      AuthTasks.InitialAdministrative, and any rank that orders its walks
      (AuthTasks.UpdateAdministrativeOnTrees: update_administrative then
      returns exactly these terminals). Every department below the school
      is assigned the department that get_administrative_department picks. */
  lemma AdministrativeAgreesWithSync(deps: Departments, dlut: DeptId, m: AuthTasks.AdminMap, rank: map<DeptId, nat>, d: DeptId)
    requires dlut in deps && forall k :: k in deps ==> (deps[k].parent.None? <==> k == dlut)
    requires d in deps && d != dlut && AdministrativeOf(deps, d).Success?
    requires forall k :: k in deps && k != dlut ==> k in m
    requires forall k :: k in m ==> k in deps
    requires forall k {:trigger m[k]} :: k in m ==> AuthTasks.InitialAdministrative(deps, dlut, k) == Success(m[k])
    requires AuthTasks.Closed(m) && AuthTasks.Ranked(m, rank)
    ensures d in m && AuthTasks.Terminals(m, rank)[d] == AdministrativeOf(deps, d).value
  {
    var c := ChainUp(deps, d, |deps|).value;
    ChainStopsAtAdministrative(deps, dlut, m, d, c);
    TerminalOfStoppingPath(m, rank, c[..AdminIndex(|c|) + 1]);
  }

  /** Any rank gives the same terminal: the last element of a path that stops. */
  lemma TerminalOfStoppingPath(m: AuthTasks.AdminMap, rank: map<DeptId, nat>, path: seq<DeptId>)
    requires AuthTasks.Closed(m) && AuthTasks.Ranked(m, rank) && AuthTasks.StopsAt(m, path)
    ensures path[0] in m && AuthTasks.Terminals(m, rank)[path[0]] == path[|path| - 1]
  {
    AuthTasks.TerminalIsFirstFixed(m, rank, path);
  }

  // ---------------------------------------------------------------------
  // Spreadsheet rows

  /** row_parser_2018: `row[1:9]`, a slice, which never fails. */
  function RowParser2018(row: seq<Cell>): (r: seq<Cell>)
    ensures |r| == (if |row| <= 1 then 0 else if |row| >= 9 then 8 else |row| - 1)
    ensures forall i :: 0 <= i < |r| ==> r[i] == row[i + 1]
  {
    if |row| <= 1 then [] else row[1..if |row| < 9 then |row| else 9]
  }

  const Expert: Cell := Text("专家")

  /** row_parser_2017: the 2017 columns in the 2018 order (event, department,
      teacher's name, staff number, role, hours), then the coefficient, 4
      for an expert and 1 otherwise, and a workload of 0. A row of fewer
      than seven cells raises IndexError. */
  function RowParser2017(row: seq<Cell>): (r: Result<seq<Cell>>)
    ensures r.Success? <==> |row| >= 7
    ensures r.Failure? ==> r.error == IndexError
    ensures r.Success? ==> (|r.value| == 8 && r.value[0] == row[4] && r.value[1] == row[2]
                            && r.value[2] == row[1] && r.value[3] == row[3] && r.value[4] == row[5]
                            && r.value[5] == row[6] && r.value[7] == Number(0))
    ensures r.Success? ==> r.value[6] == (if row[5] == Expert then Number(4) else Number(1))
  {
    if |row| < 7 then Failure(IndexError)
    else
      var coef := if row[5] == Expert then 4 else 1;
      Success([row[4], row[2], row[1], row[3], row[5], row[6], Number(coef), Number(0)])
  }

  /** The role names of EventCoefficient's role choices: participant 0 and
      expert 1. */
  const RoleChoices: map<string, nat> := map["参与" := 0, "专家" := 1]

  /** The role column: '参加' is read as '参与', surrounding blanks are
      dropped and the name is looked up in ROLE_CHOICES_MAP (KeyError when
      missing); a number has no `strip` and raises AttributeError. */
  function RoleOf(c: Cell): (r: Result<nat>)
    ensures r.Success? ==> r.value in RoleChoices.Values
    ensures r.Failure? ==> r.error == (if c.Number? then AttributeError else KeyError)
  {
    match c
    case Number(_) => Failure(AttributeError)
    case Text(s) =>
      var key := Strip(if s == "参加" then "参与" else s);
      assert key in RoleChoices ==> RoleChoices[key] in RoleChoices.Values;
      if key in RoleChoices then Success(RoleChoices[key]) else Failure(KeyError)
  }

  /** A workload row ready for the import: event name, department name,
      teacher's name, staff number as text, role, hours and coefficient. */
  datatype WorkloadRow = WorkloadRow(eventName: Cell, departmentName: Cell, userName: Cell,
                                     username: string, role: nat, numHours: int, coefficient: int)

  /** The cells the hours and the coefficient are read from: when either
      is empty (or zero) the coefficient is '1' and the hours are the
      workload. */
  function HoursAndCoefficient(fields: seq<Cell>): (p: (Cell, Cell))
    requires |fields| == 8
    ensures Truthy(p.1) && (p.0 == fields[5] || p.0 == fields[7])
    ensures Truthy(fields[5]) && Truthy(fields[6]) ==> p == (fields[5], fields[6])
  {
    if !Truthy(fields[5]) || !Truthy(fields[6]) then (fields[7], Text("1")) else (fields[5], fields[6])
  }

  /** The per-row normalisation of read_workload_content. Unpacking other
      than eight fields raises ValueError, then the role is read, the hours
      and coefficient defaulted and converted by `int()`. A row without a
      department name or a staff number is skipped (None); otherwise the
      staff number is written out as `int()` reads it. */
  function NormaliseRow(fields: seq<Cell>): (r: Result<Option<WorkloadRow>>)
    ensures |fields| != 8 ==> r == Failure(ValueError)
    ensures r.Success? ==> |fields| == 8 && RoleOf(fields[4]).Success?
    ensures r.Success? && r.value.None? <==>
              && |fields| == 8 && RoleOf(fields[4]).Success?
              && CellToInt(HoursAndCoefficient(fields).0).Success?
              && CellToInt(HoursAndCoefficient(fields).1).Success?
              && (!Truthy(fields[1]) || !Truthy(fields[3]))
    ensures r.Success? && r.value.Some? ==>
              var w := r.value.value;
              && w.eventName == fields[0] && w.departmentName == fields[1] && w.userName == fields[2]
              && Truthy(fields[1]) && Truthy(fields[3])
              && Success(w.role) == RoleOf(fields[4])
              && ParseInt(w.username) == CellToInt(fields[3])
              && Success(w.numHours) == CellToInt(HoursAndCoefficient(fields).0)
              && Success(w.coefficient) == CellToInt(HoursAndCoefficient(fields).1)
  {
    if |fields| != 8 then Failure(ValueError)
    else
      var role :- RoleOf(fields[4]);
      var (hoursCell, coefCell) := HoursAndCoefficient(fields);
      var hours :- CellToInt(hoursCell);
      var coef :- CellToInt(coefCell);
      if !Truthy(fields[1]) || !Truthy(fields[3]) then Success(None)
      else
        var staff :- CellToInt(fields[3]);
        ParseIntOfIntToString(staff);
        Success(Some(WorkloadRow(fields[0], fields[1], fields[2], IntToString(staff), role, hours, coef)))
  }

  /** '参加' and '参与' in the role column give the same row. */
  lemma ParticipateIsParticipant(fields: seq<Cell>)
    requires |fields| == 8 && fields[4] == Text("参加")
    ensures NormaliseRow(fields) == NormaliseRow(fields[4 := Text("参与")])
  {
    var other := fields[4 := Text("参与")];
    assert HoursAndCoefficient(other) == HoursAndCoefficient(fields);
  }

  lemma OneParses()
    ensures CellToInt(Text("1")) == Success(1)
  {
    StripUnchanged("1");
  }

  /** A missing number of hours or coefficient defaults the coefficient to
      1 and takes the hours from the workload column. */
  lemma MissingHoursDefault(fields: seq<Cell>)
    requires |fields| == 8 && (!Truthy(fields[5]) || !Truthy(fields[6]))
    requires NormaliseRow(fields).Success? && NormaliseRow(fields).value.Some?
    ensures NormaliseRow(fields).value.value.coefficient == 1
    ensures Success(NormaliseRow(fields).value.value.numHours) == CellToInt(fields[7])
  {
    OneParses();
    assert HoursAndCoefficient(fields) == (fields[7], Text("1"));
  }

  /** A nonzero staff number read as a number or written out as text
      gives the same row (a number 0 is falsy and skips the row, the text
      "0" does not). */
  lemma StaffNumberForms(fields: seq<Cell>, n: int)
    requires |fields| == 8 && fields[3] == Number(n) && n != 0
    ensures NormaliseRow(fields) == NormaliseRow(fields[3 := Text(IntToString(n))])
  {
    var other := fields[3 := Text(IntToString(n))];
    ParseIntOfIntToString(n);
    assert HoursAndCoefficient(other) == HoursAndCoefficient(fields);
    assert Truthy(other[3]);
  }

  /** A 2017 row: the role is the '专家'/'参与' column; the coefficient is
      4 for an expert, but only when the hours are given: without hours
      the row falls back to coefficient 1 and the 0 workload. */
  lemma Row2017Workload(row: seq<Cell>)
    requires RowParser2017(row).Success?
    requires NormaliseRow(RowParser2017(row).value).Success?
    requires NormaliseRow(RowParser2017(row).value).value.Some?
    ensures var w := NormaliseRow(RowParser2017(row).value).value.value;
            && Success(w.role) == RoleOf(row[5])
            && w.coefficient == (if Truthy(row[6]) && row[5] == Expert then 4 else 1)
            && Success(w.numHours) == (if Truthy(row[6]) then CellToInt(row[6]) else Success(0))
  {
    var fields := RowParser2017(row).value;
    assert Truthy(fields[6]);
    OneParses();
  }

  /** converter_get_or_default: the converter's value for a key it knows;
      for any other key (get_value raises) the default when it is truthy,
      else the key itself. */
  function ConverterGetOrDefault(converter: map<string, string>, key: string, default: Option<string>): (r: string)
    ensures key in converter ==> r == converter[key]
    ensures key !in converter && default.Some? && default.value != "" ==> r == default.value
    ensures key !in converter && (default.None? || default == Some("")) ==> r == key
  {
    if key in converter then converter[key]
    else if default.Some? && default.value != "" then default.value
    else key
  }

  /** Without a default, as the teacher import calls it, converting is
      idempotent when no converted value is itself a code. */
  lemma ConverterIdempotent(converter: map<string, string>, key: string)
    requires forall k :: k in converter ==> converter[k] !in converter
    ensures var once := ConverterGetOrDefault(converter, key, None);
            ConverterGetOrDefault(converter, once, None) == once
  {
  }

  // ---------------------------------------------------------------------
  // Teacher rows

  /** The fields of a teacher row that reach the User table: the formatted
      staff number, the name and the department found by its raw id. */
  datatype TeacherFields = TeacherFields(username: string, firstName: string, department: DeptId)

  /** `row[0] in users`: the dictionary of teachers read so far is keyed by
      the formatted staff numbers, so only a text cell can be found in it. */
  predicate AlreadyRead(c: Cell, seen: set<string>) {
    c.Text? && c.s in seen
  }

  /** A cell written to a text column: a text as it is, an integral number
      as its numeral. */
  function CellString(c: Cell): (s: string)
    ensures c.Text? ==> s == c.s
    ensures c.Number? ==> ParseInt(s) == Success(c.n)
  {
    match c
    case Text(t) => t
    case Number(n) => ParseIntOfIntToString(n); IntToString(n)
  }

  /** `raw_department_id` to department, for the department cell of a row. */
  function DepartmentOfCell(c: Cell, byRaw: map<string, DeptId>): (r: Option<DeptId>)
    ensures r.Some? <==> c.Text? && c.s in byRaw
    ensures r.Some? ==> r.value == byRaw[c.s]
  {
    if c.Text? && c.s in byRaw then Some(byRaw[c.s]) else None
  }

  /** The part of one turn of the teacher loop that only reads the row: the
      skip of a teacher already read, the unpacking of the first ten cells,
      f'{int(zgh)}', and the lookup of the department (a row with an
      unknown department is skipped). None means the row is skipped. */
  function TeacherRow(row: seq<Cell>, seen: set<string>, byRaw: map<string, DeptId>): (r: Result<Option<TeacherFields>>)
    ensures r.Failure? ==> r.error == (if |row| == 0 then IndexError else ValueError)
    ensures r.Success? <==> |row| > 0 && (AlreadyRead(row[0], seen) || (|row| >= 10 && CellToInt(row[0]).Success?))
    ensures r == Success(None) <==>
              |row| > 0 && (AlreadyRead(row[0], seen)
                            || (|row| >= 10 && CellToInt(row[0]).Success? && DepartmentOfCell(row[4], byRaw).None?))
    ensures r.Success? && r.value.Some? ==>
              var f := r.value.value;
              && |row| >= 10 && !AlreadyRead(row[0], seen)
              && ParseInt(f.username) == CellToInt(row[0])
              && f.firstName == CellString(row[1])
              && Some(f.department) == DepartmentOfCell(row[4], byRaw)
  {
    if |row| == 0 then Failure(IndexError)
    else if AlreadyRead(row[0], seen) then Success(None)
    else if |row| < 10 then Failure(ValueError)
    else
      var staff :- CellToInt(row[0]);
      ParseIntOfIntToString(staff);
      match DepartmentOfCell(row[4], byRaw)
      case None => Success(None)
      case Some(d) => Success(Some(TeacherFields(IntToString(staff), CellString(row[1]), d)))
  }

  /** The usernames the loop of read_teachers_information collects, row by
      row, each row read against the usernames collected before it; the
      first row that cannot be read gives its error. */
  function RowsRead(rows: seq<seq<Cell>>, byRaw: map<string, DeptId>): (r: Result<set<string>>)
    ensures r.Failure? ==> r.error == IndexError || r.error == ValueError
    ensures r.Success? ==> forall u :: u in r.value ==>
              exists i :: 0 <= i < |rows| && |rows[i]| > 0 && ParseInt(u) == CellToInt(rows[i][0])
    decreases |rows|
  {
    if rows == [] then Success({})
    else
      var init, last := rows[..|rows| - 1], rows[|rows| - 1];
      var seen :- RowsRead(init, byRaw);
      var f :- TeacherRow(last, seen, byRaw);
      assert forall i :: 0 <= i < |init| ==> init[i] == rows[i];
      Success(if f.Some? then seen + {f.value.username} else seen)
  }

  /** One more row: its TeacherRow result against the usernames read so
      far decides the next set, or the error. */
  lemma RowsReadStep(rows: seq<seq<Cell>>, k: nat, byRaw: map<string, DeptId>, seen: set<string>)
    requires k < |rows| && RowsRead(rows[..k], byRaw) == Success(seen)
    ensures RowsRead(rows[..k + 1], byRaw) ==
              match TeacherRow(rows[k], seen, byRaw)
              case Failure(e) => Failure(e)
              case Success(None) => Success(seen)
              case Success(Some(f)) => Success(seen + {f.username})
  {
    assert rows[..k + 1][..k] == rows[..k] && rows[..k + 1][k] == rows[k];
  }

  /** The rows of the sheet from the third on (range(2, num_rows)). */
  function TeacherRows(sheet: Sheet): seq<seq<Cell>> {
    if |sheet| <= 2 then [] else sheet[2..]
  }

  /** Since the dictionary holds texts, a staff number xlrd reads as a
      number is never found in it: such a row is read again every time. */
  lemma NumericStaffNumberNotSkipped(row: seq<Cell>, seen: set<string>, byRaw: map<string, DeptId>)
    requires |row| > 0 && row[0].Number?
    ensures TeacherRow(row, seen, byRaw) == TeacherRow(row, {}, byRaw)
  {
  }

  /** A row whose staff number is a text written as the script formats it
      is skipped the second time it is read. */
  lemma RepeatedRowSkipped(row: seq<Cell>, seen: set<string>, byRaw: map<string, DeptId>, n: int)
    requires |row| > 0 && row[0] == Text(IntToString(n))
    requires TeacherRow(row, seen, byRaw).Success? && TeacherRow(row, seen, byRaw).value.Some?
    ensures TeacherRow(row, seen + {TeacherRow(row, seen, byRaw).value.value.username}, byRaw) == Success(None)
  {
    var f := TeacherRow(row, seen, byRaw).value.value;
    ParseIntOfIntToString(n);
    IntToStringInjective(n, CellToInt(row[0]).value);
    assert ParseInt(f.username) == Success(n);
    ParseIntOfIntToString(CellToInt(row[0]).value);
  }

  // ---------------------------------------------------------------------
  // Teacher groups along the tree

  /** The departments get_or_create_user walks: none without a department,
      else the department and its ancestors up to its root. */
  function WalkUp(deps: Departments, department: Option<DeptId>): (r: Result<seq<DeptId>>)
    ensures r.Success? ==> forall i :: 0 <= i < |r.value| ==> r.value[i] in deps
  {
    match department
    case None => Success([])
    case Some(d) => ChainUp(deps, d, |deps|)
  }

  /** The cached teacher groups of the departments on a walk. */
  function TeacherGroupIds(cache: map<string, GroupId>, deps: Departments, walk: seq<DeptId>): set<GroupId> {
    set i, name | 0 <= i < |walk| && walk[i] in deps && name == ScriptGroupName(deps[walk[i]], TeacherGroupType) && name in cache :: cache[name]
  }

  /** Every department of the walk has its teacher group cached. */
  ghost predicate TeacherGroupsCached(cache: map<string, GroupId>, deps: Departments, walk: seq<DeptId>) {
    forall i :: 0 <= i < |walk| ==> walk[i] in deps && ScriptGroupName(deps[walk[i]], TeacherGroupType) in cache
  }

  /** The cache keeps every name it had, with the same group. */
  ghost predicate CacheGrows(cache: map<string, GroupId>, cache': map<string, GroupId>) {
    forall name :: name in cache ==> name in cache' && cache'[name] == cache[name]
  }

  /** Two growth steps of the memo and the Group table make one. */
  lemma GrowsTrans(c0: map<string, GroupId>, c1: map<string, GroupId>, c2: map<string, GroupId>,
                   g0: AuthTasks.Groups, g1: AuthTasks.Groups, g2: AuthTasks.Groups)
    requires CacheGrows(c0, c1) && CacheGrows(c1, c2)
    requires AuthTasks.GroupsGrow(g0, g1) && AuthTasks.GroupsGrow(g1, g2)
    ensures CacheGrows(c0, c2) && AuthTasks.GroupsGrow(g0, g2)
  {
  }

  /** Extending a walk by one department adds that department's group. */
  lemma TeacherGroupIdsSnoc(cache: map<string, GroupId>, cache': map<string, GroupId>, deps: Departments, walk: seq<DeptId>, x: DeptId)
    requires TeacherGroupsCached(cache, deps, walk) && CacheGrows(cache, cache')
    requires x in deps && ScriptGroupName(deps[x], TeacherGroupType) in cache'
    ensures TeacherGroupsCached(cache', deps, walk + [x])
    ensures TeacherGroupIds(cache', deps, walk + [x])
         == TeacherGroupIds(cache, deps, walk) + {cache'[ScriptGroupName(deps[x], TeacherGroupType)]}
  {
    var w := walk + [x];
    forall i | 0 <= i < |w| ensures w[i] in deps && ScriptGroupName(deps[w[i]], TeacherGroupType) in cache' {
      if i < |walk| {
        assert w[i] == walk[i];
      }
    }
    var lhs, rhs := TeacherGroupIds(cache', deps, w), TeacherGroupIds(cache, deps, walk) + {cache'[ScriptGroupName(deps[x], TeacherGroupType)]};
    forall g | g in lhs ensures g in rhs {
      var i, name :| 0 <= i < |w| && w[i] in deps && name == ScriptGroupName(deps[w[i]], TeacherGroupType) && name in cache' && cache'[name] == g;
      if i < |walk| {
        assert w[i] == walk[i];
      }
    }
    forall g | g in rhs ensures g in lhs {
      if g in TeacherGroupIds(cache, deps, walk) {
        var i, name :| 0 <= i < |walk| && walk[i] in deps && name == ScriptGroupName(deps[walk[i]], TeacherGroupType) && name in cache && cache[name] == g;
        assert w[i] == walk[i];
      } else {
        assert w[|walk|] == x;
      }
    }
  }

  /** The groups update_user_groups hands to its handler: the teacher group
      (`Group.objects.get` by name, the lowest id among equal names,
      DoesNotExist when missing) of every department from `department`
      up to and including `administrative`. Running out of departments
      raises AttributeError on `None.name`; past `fuel` steps the walk is
      reported as Diverges. */
  function WalkTeacherGroups(deps: Departments, groups: AuthTasks.Groups, ng: nat,
                             department: Option<DeptId>, administrative: Option<DeptId>, fuel: nat): (r: Result<seq<GroupId>>)
    ensures r.Success? ==> |r.value| >= 1 && forall i :: 0 <= i < |r.value| ==> r.value[i] in groups
    decreases fuel
  {
    match department
    case None => Failure(AttributeError)
    case Some(d) =>
      if d !in deps then Failure(DoesNotExist)
      else match AuthTasks.FindGroup(groups, ScriptGroupName(deps[d], TeacherGroupType), ng)
        case None => Failure(DoesNotExist)
        case Some(g) =>
          if department == administrative then Success([g])
          else if fuel == 0 then Failure(Diverges)
          else
            var rest :- WalkTeacherGroups(deps, groups, ng, deps[d].parent, administrative, fuel - 1);
            Success([g] + rest)
  }

  /** The teacher groups of the departments of a given walk, in order;
      DoesNotExist for the first department without one. */
  function TeacherGroupsAlong(deps: Departments, groups: AuthTasks.Groups, ng: nat, walk: seq<DeptId>): (r: Result<seq<GroupId>>)
    requires forall i :: 0 <= i < |walk| ==> walk[i] in deps
    ensures r.Success? ==> |r.value| == |walk| && forall i :: 0 <= i < |walk| ==>
              Some(r.value[i]) == AuthTasks.FindGroup(groups, ScriptGroupName(deps[walk[i]], TeacherGroupType), ng)
    ensures r.Failure? <==> exists i :: 0 <= i < |walk| && AuthTasks.FindGroup(groups, ScriptGroupName(deps[walk[i]], TeacherGroupType), ng).None?
    decreases |walk|
  {
    if walk == [] then Success([])
    else match AuthTasks.FindGroup(groups, ScriptGroupName(deps[walk[0]], TeacherGroupType), ng)
      case None => Failure(DoesNotExist)
      case Some(g) =>
        var rest := TeacherGroupsAlong(deps, groups, ng, walk[1..]);
        assert forall i :: 1 <= i < |walk| ==> walk[1..][i - 1] == walk[i];
        if rest.Failure? then Failure(rest.error) else Success([g] + rest.value)
  }

  lemma {:induction false} WalkFromChainEntry(deps: Departments, groups: AuthTasks.Groups, ng: nat, c: seq<DeptId>, e: nat, i: nat, fuel: nat)
    requires UpPath(deps, c) && deps[c[|c| - 1]].parent.None?
    requires i <= e < |c| && e - i <= fuel
    ensures WalkTeacherGroups(deps, groups, ng, Some(c[i]), Some(c[e]), fuel) == TeacherGroupsAlong(deps, groups, ng, c[i..e + 1])
    decreases e - i
  {
    if i < e {
      WalkFromChainEntry(deps, groups, ng, c, e, i + 1, fuel - 1);
      WalkEntryStep(deps, groups, ng, c, e, i, fuel);
    } else {
      WalkEntryAt(deps, groups, ng, c, i, fuel);
    }
  }

  /** A walk that starts at its end hands over that department's group. */
  lemma WalkEntryAt(deps: Departments, groups: AuthTasks.Groups, ng: nat, c: seq<DeptId>, i: nat, fuel: nat)
    requires UpPath(deps, c) && i < |c|
    ensures WalkTeacherGroups(deps, groups, ng, Some(c[i]), Some(c[i]), fuel) == TeacherGroupsAlong(deps, groups, ng, c[i..i + 1])
  {
    var walk := c[i..i + 1];
    assert walk[0] == c[i] && c[i] in deps;
    assert walk[1..] == [];
    var g := AuthTasks.FindGroup(groups, ScriptGroupName(deps[c[i]], TeacherGroupType), ng);
    assert g.Some? ==> [g.value] + [] == [g.value];
  }

  /** One step up the chain: the walk from `c[i]` is its group followed by
      the walk from `c[i + 1]`, as the groups along the chain are. */
  lemma WalkEntryStep(deps: Departments, groups: AuthTasks.Groups, ng: nat, c: seq<DeptId>, e: nat, i: nat, fuel: nat)
    requires UpPath(deps, c) && deps[c[|c| - 1]].parent.None?
    requires i < e < |c| && e - i <= fuel
    requires WalkTeacherGroups(deps, groups, ng, Some(c[i + 1]), Some(c[e]), fuel - 1) == TeacherGroupsAlong(deps, groups, ng, c[i + 1..e + 1])
    ensures WalkTeacherGroups(deps, groups, ng, Some(c[i]), Some(c[e]), fuel) == TeacherGroupsAlong(deps, groups, ng, c[i..e + 1])
  {
    var walk := c[i..e + 1];
    assert walk[0] == c[i] && c[i] in deps;
    ChainDistinct(deps, c, i, e);
    assert deps[c[i]].parent == Some(c[i + 1]);
    assert walk[1..] == c[i + 1..e + 1];
  }

  /** For a teacher whose administrative department is the one
      get_administrative_department picked, update_user_groups walks
      exactly the departments from their own up to the administrative one:
      it fails only when one of those has no teacher group. */
  lemma WalkToAdministrative(deps: Departments, groups: AuthTasks.Groups, ng: nat, d: DeptId)
    requires AdministrativeOf(deps, d).Success?
    ensures var c := ChainUp(deps, d, |deps|).value;
            WalkTeacherGroups(deps, groups, ng, Some(d), Some(AdministrativeOf(deps, d).value), |deps|)
              == TeacherGroupsAlong(deps, groups, ng, c[..AdminIndex(|c|) + 1])
  {
    var c := ChainUp(deps, d, |deps|).value;
    assert UpPath(deps, c) && c[0] == d && deps[c[|c| - 1]].parent.None? && |c| <= |deps| + 1;
    var e := AdminIndex(|c|);
    WalkFromChainEntry(deps, groups, ng, c, e, 0, |deps|);
    assert c[0..e + 1] == c[..e + 1];
  }

  /** Part way up from `d`: the departments `walked` so far, then what the
      walk from `cur` with `left` steps to go gives. */
  ghost predicate ChainSoFar(deps: Departments, d: DeptId, walked: seq<DeptId>, cur: DeptId, left: nat) {
    ChainUp(deps, d, |deps|) == match ChainUp(deps, cur, left)
                                case Success(rest) => Success(walked + rest)
                                case Failure(e) => Failure(e)
  }

  lemma ChainSoFarStart(deps: Departments, d: DeptId)
    ensures ChainSoFar(deps, d, [], d, |deps|)
  {
    var whole := ChainUp(deps, d, |deps|);
    assert whole.Success? ==> [] + whole.value == whole.value;
  }

  lemma ChainSoFarStep(deps: Departments, d: DeptId, walked: seq<DeptId>, cur: DeptId, left: nat, up: DeptId)
    requires ChainSoFar(deps, d, walked, cur, left)
    requires cur in deps && deps[cur].parent == Some(up) && left > 0
    ensures ChainSoFar(deps, d, walked + [cur], up, left - 1)
  {
    var rest := ChainUp(deps, up, left - 1);
    assert rest.Success? ==> walked + ([cur] + rest.value) == (walked + [cur]) + rest.value;
  }

  /** Where the walk ends: an unknown department, a root, or no steps left. */
  lemma ChainSoFarStop(deps: Departments, d: DeptId, walked: seq<DeptId>, cur: DeptId, left: nat)
    requires ChainSoFar(deps, d, walked, cur, left)
    ensures cur !in deps ==> ChainUp(deps, d, |deps|) == Failure(DoesNotExist)
    ensures cur in deps && deps[cur].parent.None? ==> ChainUp(deps, d, |deps|) == Success(walked + [cur])
    ensures cur in deps && deps[cur].parent.Some? && left == 0 ==> ChainUp(deps, d, |deps|) == Failure(Diverges)
  {
  }

  /** The while loop of get_administrative_department: `d` and its
      ancestors, collected up to the first department without a super
      department. */
  method WalkChain(departments: Departments, d: DeptId) returns (r: Result<seq<DeptId>>)
    ensures r == ChainUp(departments, d, |departments|)
  {
    var walked: seq<DeptId> := [];
    var cur := d;
    var left: nat := |departments|;
    ChainSoFarStart(departments, d);
    while true
      invariant ChainSoFar(departments, d, walked, cur, left)
      decreases left
    {
      ChainSoFarStop(departments, d, walked, cur, left);
      if cur !in departments {
        return Failure(DoesNotExist);
      }
      match departments[cur].parent
      case None =>
        return Success(walked + [cur]);
      case Some(up) =>
        if left == 0 {
          return Failure(Diverges);
        }
        ChainSoFarStep(departments, d, walked, cur, left, up);
        walked, cur, left := walked + [cur], up, left - 1;
    }
  }

  /** Part way up the walk of update_user_groups: the groups `walked` so
      far, then what the walk from `cur` with `left` steps to go gives. */
  ghost predicate GroupWalkSoFar(deps: Departments, groups: AuthTasks.Groups, ng: nat, department: Option<DeptId>,
                                 administrative: Option<DeptId>, walked: seq<GroupId>, cur: Option<DeptId>, left: nat) {
    WalkTeacherGroups(deps, groups, ng, department, administrative, |deps|)
      == match WalkTeacherGroups(deps, groups, ng, cur, administrative, left)
         case Success(rest) => Success(walked + rest)
         case Failure(e) => Failure(e)
  }

  lemma GroupWalkSoFarStart(deps: Departments, groups: AuthTasks.Groups, ng: nat, department: Option<DeptId>, administrative: Option<DeptId>)
    ensures GroupWalkSoFar(deps, groups, ng, department, administrative, [], department, |deps|)
  {
    var whole := WalkTeacherGroups(deps, groups, ng, department, administrative, |deps|);
    assert whole.Success? ==> [] + whole.value == whole.value;
  }

  lemma GroupWalkSoFarStep(deps: Departments, groups: AuthTasks.Groups, ng: nat, department: Option<DeptId>,
                           administrative: Option<DeptId>, walked: seq<GroupId>, x: DeptId, left: nat, g: GroupId)
    requires GroupWalkSoFar(deps, groups, ng, department, administrative, walked, Some(x), left)
    requires x in deps && AuthTasks.FindGroup(groups, ScriptGroupName(deps[x], TeacherGroupType), ng) == Some(g)
    requires Some(x) != administrative && left > 0
    ensures GroupWalkSoFar(deps, groups, ng, department, administrative, walked + [g], deps[x].parent, left - 1)
  {
    var rest := WalkTeacherGroups(deps, groups, ng, deps[x].parent, administrative, left - 1);
    assert rest.Success? ==> walked + ([g] + rest.value) == (walked + [g]) + rest.value;
  }

  /** Where the walk of update_user_groups ends. */
  lemma GroupWalkSoFarStop(deps: Departments, groups: AuthTasks.Groups, ng: nat, department: Option<DeptId>,
                           administrative: Option<DeptId>, walked: seq<GroupId>, cur: Option<DeptId>, left: nat)
    requires GroupWalkSoFar(deps, groups, ng, department, administrative, walked, cur, left)
    ensures var whole := WalkTeacherGroups(deps, groups, ng, department, administrative, |deps|);
      && (cur.None? ==> whole == Failure(AttributeError))
      && (cur.Some? && cur.value !in deps ==> whole == Failure(DoesNotExist))
      && (cur.Some? && cur.value in deps ==>
            match AuthTasks.FindGroup(groups, ScriptGroupName(deps[cur.value], TeacherGroupType), ng)
            case None => whole == Failure(DoesNotExist)
            case Some(g) =>
              && (cur == administrative ==> whole == Success(walked + [g]))
              && (cur != administrative && left == 0 ==> whole == Failure(Diverges)))
  {
  }

  /** Adding one more group after the ones of `walked`. */
  lemma AddedStep(users: map<string, User>, username: string, u: User, walked: seq<GroupId>, g: GroupId)
    ensures var before := users[username := u.(groups := u.groups + AuthTasks.Elems(walked))];
            before[username := before[username].(groups := before[username].groups + {g})]
              == users[username := u.(groups := u.groups + AuthTasks.Elems(walked + [g]))]
  {
    assert AuthTasks.Elems(walked + [g]) == AuthTasks.Elems(walked) + {g};
    assert (u.groups + AuthTasks.Elems(walked)) + {g} == u.groups + AuthTasks.Elems(walked + [g]);
  }

  /** Joining one more group after the ones joined so far. */
  lemma JoinedStep(users: map<string, User>, username: string, u: User, joined: set<GroupId>, g: GroupId)
    ensures var before := users[username := u.(groups := u.groups + joined)];
            before[username := before[username].(groups := before[username].groups + {g})]
              == users[username := u.(groups := u.groups + (joined + {g}))]
  {
    assert (u.groups + joined) + {g} == u.groups + (joined + {g});
  }

  lemma ReplacedTwice(users: map<string, User>, username: string, a: User, b: User)
    ensures users[username := a][username := b] == users[username := b]
  {
  }

  /** A change of one user's groups keeps every user placed. */
  lemma ChangedOnlyGroups(users: map<string, User>, users': map<string, User>, username: string, deps: Departments)
    requires users.Keys <= users'.Keys
    requires forall u :: u in users && u != username ==> users'[u] == users[u]
    requires username in users ==>
               users'[username].department == users[username].department
               && users'[username].administrative == users[username].administrative
    ensures forall u :: Placed(users, deps, u) ==> Placed(users', deps, u)
  {
  }

  // ---------------------------------------------------------------------
  // The script's state

  /** A User row as far as these helpers touch it; `usablePassword` is
      cleared by `set_unusable_password` on a created user. */
  datatype User = User(firstName: string, department: Option<DeptId>, administrative: Option<DeptId>, groups: set<GroupId>,
                       usablePassword: bool)

  /** `User.objects.get_or_create` finds a user only when all the fields
      it is given agree; a different user with the same username makes
      the insert fail. */
  predicate UserMatches(users: map<string, User>, username: string, firstName: string,
                        department: Option<DeptId>, administrative: Option<DeptId>) {
    username in users ==>
      && users[username].firstName == firstName
      && users[username].department == department
      && users[username].administrative == administrative
  }

  /** A user whose administrative department is the one
      get_administrative_department picks for their department. */
  ghost predicate Placed(users: map<string, User>, deps: Departments, username: string) {
    && username in users
    && users[username].department.Some? && users[username].administrative.Some?
    && AdministrativeOf(deps, users[username].department.value) == Success(users[username].administrative.value)
  }

  /** The Department, Group and User tables the helpers read and write,
      and the script's two module-level memos. */
  class Importer {
    var departments: Departments
    var groups: AuthTasks.Groups
    var nextGroupId: nat
    var users: map<string, User>
    /** `cached_groups`: group name to group. */
    var cachedGroups: map<string, GroupId>
    /** `administrative_departments`: department id to administrative department. */
    var administrative: map<DeptId, DeptId>

    /** Group ids are handed out below the counter, the group memo holds
        groups of the name it files them under, and the department memo
        holds what get_administrative_department computes. */
    predicate Valid()
      reads this
    {
      && (forall g :: g in groups ==> g < nextGroupId)
      && (forall name :: name in cachedGroups ==> cachedGroups[name] in groups && groups[cachedGroups[name]] == name)
      && (forall d :: d in administrative ==> AdministrativeOf(departments, d) == Success(administrative[d]))
    }

    constructor(departments: Departments, groups: AuthTasks.Groups, nextGroupId: nat, users: map<string, User>)
      requires forall g :: g in groups ==> g < nextGroupId
      ensures Valid()
      ensures this.departments == departments && this.groups == groups && this.nextGroupId == nextGroupId
      ensures this.users == users && cachedGroups == map[] && administrative == map[]
    {
      this.departments := departments;
      this.groups := groups;
      this.nextGroupId := nextGroupId;
      this.users := users;
      cachedGroups := map[];
      administrative := map[];
    }

    /** get_or_create_group: the group f'{department.name}-{group_type}',
        from the memo when cached there, otherwise found by name (the
        lowest id) or created, and then cached. */
    method GetOrCreateGroup(dept: Department, groupType: string) returns (g: GroupId)
      requires Valid()
      modifies this
      ensures Valid()
      ensures g in groups && groups[g] == ScriptGroupName(dept, groupType)
      ensures cachedGroups == old(cachedGroups)[ScriptGroupName(dept, groupType) := g]
      ensures ScriptGroupName(dept, groupType) in old(cachedGroups) ==>
                g == old(cachedGroups)[ScriptGroupName(dept, groupType)] && groups == old(groups) && nextGroupId == old(nextGroupId)
      ensures ScriptGroupName(dept, groupType) !in old(cachedGroups)
              && AuthTasks.FindGroup(old(groups), ScriptGroupName(dept, groupType), old(nextGroupId)).Some? ==>
                Some(g) == AuthTasks.FindGroup(old(groups), ScriptGroupName(dept, groupType), old(nextGroupId))
                && groups == old(groups) && nextGroupId == old(nextGroupId)
      ensures ScriptGroupName(dept, groupType) !in old(cachedGroups)
              && AuthTasks.FindGroup(old(groups), ScriptGroupName(dept, groupType), old(nextGroupId)).None? ==>
                g == old(nextGroupId) && groups == old(groups)[g := ScriptGroupName(dept, groupType)] && nextGroupId == g + 1
      ensures CacheGrows(old(cachedGroups), cachedGroups) && AuthTasks.GroupsGrow(old(groups), groups)
      ensures departments == old(departments) && users == old(users) && administrative == old(administrative)
    {
      var name := ScriptGroupName(dept, groupType);
      if name in cachedGroups {
        return cachedGroups[name];
      }
      var found := AuthTasks.FindGroup(groups, name, nextGroupId);
      if found.Some? {
        g := found.value;
      } else {
        g := nextGroupId;
        groups := groups[g := name];
        nextGroupId := g + 1;
      }
      cachedGroups := cachedGroups[name := g];
    }

    /** get_administrative_department: None for no department; otherwise
        the memo's answer, or the pick on the walk up to the root, which
        is then memoised under the department's id. */
    method GetAdministrativeDepartment(department: Option<DeptId>) returns (r: Result<Option<DeptId>>)
      requires Valid()
      modifies this
      ensures Valid()
      ensures department.None? ==> r == Success(None)
      ensures department.Some? ==>
                r == match AdministrativeOf(departments, department.value)
                     case Success(a) => Success(Some(a))
                     case Failure(e) => Failure(e)
      ensures administrative == if r.Success? && department.Some? then old(administrative)[department.value := r.value.value]
                                else old(administrative)
      ensures departments == old(departments) && groups == old(groups) && nextGroupId == old(nextGroupId)
      ensures users == old(users) && cachedGroups == old(cachedGroups)
    {
      if department.None? {
        return Success(None);
      }
      var d := department.value;
      if d in administrative {
        return Success(Some(administrative[d]));
      }
      var walk := WalkChain(departments, d);
      if walk.Failure? {
        return Failure(walk.error);
      }
      var chain := walk.value;
      var a := chain[AdminIndex(|chain|)];
      administrative := administrative[d := a];
      r := Success(Some(a));
    }

    /** One turn of the loop of get_or_create_user: the user joins the
        teacher group of `x`. */
    method JoinTeacherGroup(username: string, x: DeptId) returns (g: GroupId)
      requires Valid() && x in departments && username in users
      modifies this
      ensures Valid() && departments == old(departments) && administrative == old(administrative)
      ensures CacheGrows(old(cachedGroups), cachedGroups) && AuthTasks.GroupsGrow(old(groups), groups)
      ensures ScriptGroupName(departments[x], TeacherGroupType) in cachedGroups
      ensures g == cachedGroups[ScriptGroupName(departments[x], TeacherGroupType)]
      ensures users == old(users)[username := old(users)[username].(groups := old(users)[username].groups + {g})]
    {
      g := GetOrCreateGroup(departments[x], TeacherGroupType);
      users := users[username := users[username].(groups := users[username].groups + {g})];
    }

    /** The loop of get_or_create_user: the user joins the teacher group of
        every department from `d` up to its root. */
    method AddTeacherGroups(username: string, d: DeptId) returns (r: Result<()>)
      requires Valid() && username in users
      modifies this
      ensures Valid() && departments == old(departments) && administrative == old(administrative)
      ensures CacheGrows(old(cachedGroups), cachedGroups) && AuthTasks.GroupsGrow(old(groups), groups)
      ensures r.Success? <==> ChainUp(departments, d, |departments|).Success?
      ensures r.Failure? ==> r.error == ChainUp(departments, d, |departments|).error
      ensures r.Success? ==>
                var walk := ChainUp(departments, d, |departments|).value;
                && TeacherGroupsCached(cachedGroups, departments, walk)
                && users == old(users)[username := old(users)[username].(groups :=
                     old(users)[username].groups + TeacherGroupIds(cachedGroups, departments, walk))]
      ensures username in users && users == old(users)[username := old(users)[username].(groups := users[username].groups)]
    {
      ghost var u := users[username];
      assert u == old(users)[username];
      var walked: seq<DeptId> := [];
      var cur := d;
      var left: nat := |departments|;
      ChainSoFarStart(departments, cur);
      assert TeacherGroupIds(cachedGroups, departments, walked) == {};
      assert u.groups + {} == u.groups && u.(groups := u.groups) == u;
      while true
        invariant Valid() && departments == old(departments) && administrative == old(administrative)
        invariant CacheGrows(old(cachedGroups), cachedGroups) && AuthTasks.GroupsGrow(old(groups), groups)
        invariant TeacherGroupsCached(cachedGroups, departments, walked)
        invariant users == old(users)[username := u.(groups := u.groups + TeacherGroupIds(cachedGroups, departments, walked))]
        invariant ChainSoFar(departments, d, walked, cur, left)
        decreases left
      {
        ChainSoFarStop(departments, d, walked, cur, left);
        if cur !in departments {
          return Failure(DoesNotExist);
        }
        JoinNext(username, cur, walked, u, old(users), old(cachedGroups), old(groups));
        match departments[cur].parent
        case None =>
          return Success(());
        case Some(up) =>
          if left == 0 {
            return Failure(Diverges);
          }
          ChainSoFarStep(departments, d, walked, cur, left, up);
          walked, cur, left := walked + [cur], up, left - 1;
      }
    }

    /** One turn of the loop of get_or_create_user, in terms of the walk so
        far: the user has joined the teacher groups of `walked` and now
        joins the one of `x`. */
    method JoinNext(username: string, x: DeptId, ghost walked: seq<DeptId>, ghost u: User,
                    ghost users0: map<string, User>, ghost cache0: map<string, GroupId>, ghost groups0: AuthTasks.Groups)
      requires Valid() && x in departments
      requires CacheGrows(cache0, cachedGroups) && AuthTasks.GroupsGrow(groups0, groups)
      requires TeacherGroupsCached(cachedGroups, departments, walked)
      requires users == users0[username := u.(groups := u.groups + TeacherGroupIds(cachedGroups, departments, walked))]
      modifies this
      ensures Valid() && departments == old(departments) && administrative == old(administrative)
      ensures CacheGrows(cache0, cachedGroups) && AuthTasks.GroupsGrow(groups0, groups)
      ensures TeacherGroupsCached(cachedGroups, departments, walked + [x])
      ensures users == users0[username := u.(groups := u.groups + TeacherGroupIds(cachedGroups, departments, walked + [x]))]
    {
      ghost var cache, gs := cachedGroups, groups;
      ghost var joined := TeacherGroupIds(cachedGroups, departments, walked);
      var g := JoinTeacherGroup(username, x);
      GrowsTrans(cache0, cache, cachedGroups, groups0, gs, groups);
      TeacherGroupIdsSnoc(cache, cachedGroups, departments, walked, x);
      JoinedStep(users0, username, u, joined, g);
    }

    /** get_or_create_user: the user with exactly these fields, created
        when the username is new (IntegrityError when it is taken by a user
        with other fields); either way the user then joins the teacher
        group of every department from `department` up to its root. The
        flag says whether the user was created. */
    method GetOrCreateUser(username: string, firstName: string, department: Option<DeptId>, administrativeId: Option<DeptId>)
      returns (r: Result<bool>)
      requires Valid()
      modifies this
      ensures Valid() && departments == old(departments) && administrative == old(administrative)
      ensures CacheGrows(old(cachedGroups), cachedGroups) && AuthTasks.GroupsGrow(old(groups), groups)
      ensures r.Success? <==> UserMatches(old(users), username, firstName, department, administrativeId)
                              && WalkUp(departments, department).Success?
      ensures r.Failure? ==>
                r.error == if !UserMatches(old(users), username, firstName, department, administrativeId) then IntegrityError
                           else WalkUp(departments, department).error
      ensures r.Success? ==>
                var walk := WalkUp(departments, department).value;
                var base := if username in old(users) then old(users)[username]
                            else User(firstName, department, administrativeId, {}, false);
                && r.value == (username !in old(users))
                && TeacherGroupsCached(cachedGroups, departments, walk)
                && users == old(users)[username := base.(groups := base.groups + TeacherGroupIds(cachedGroups, departments, walk))]
      ensures r.Success? && r.value ==> !users[username].usablePassword && users[username].firstName == firstName
      ensures old(users).Keys <= users.Keys
      ensures forall u :: u in old(users) && u != username ==> users[u] == old(users)[u]
      ensures username in old(users) ==> users[username].usablePassword == old(users)[username].usablePassword
      ensures username in old(users) ==>
                users[username].department == old(users)[username].department
                && users[username].administrative == old(users)[username].administrative
    {
      var created := username !in users;
      var base := if created then User(firstName, department, administrativeId, {}, false) else users[username];
      if !created {
        var u := users[username];
        if u.firstName != firstName || u.department != department || u.administrative != administrativeId {
          return Failure(IntegrityError);
        }
        assert users == old(users)[username := base];
      } else {
        users := users[username := base];
      }
      if department.None? {
        assert TeacherGroupIds(cachedGroups, departments, []) == {};
        assert base.(groups := base.groups + {}) == base;
        return Success(created);
      }
      var walked := AddTeacherGroups(username, department.value);
      if walked.Failure? {
        return Failure(walked.error);
      }
      ReplacedTwice(old(users), username, base, users[username]);
      r := Success(created);
    }

    /** update_user_groups of read_teachers_information, with the handler
        `user.groups.add`: the user joins the teacher group of every
        department from their department up to their administrative one. */
    method UpdateUserGroups(username: string) returns (r: Result<seq<GroupId>>)
      requires Valid() && username in users
      modifies this
      ensures Valid()
      ensures r == WalkTeacherGroups(departments, groups, nextGroupId, old(users)[username].department,
                                     old(users)[username].administrative, |departments|)
      ensures departments == old(departments) && groups == old(groups) && nextGroupId == old(nextGroupId)
      ensures cachedGroups == old(cachedGroups) && administrative == old(administrative)
      ensures r.Success? ==>
                users == old(users)[username := old(users)[username].(groups := old(users)[username].groups + AuthTasks.Elems(r.value))]
      ensures username in users && users == old(users)[username := old(users)[username].(groups := users[username].groups)]
    {
      var u := users[username];
      var walked: seq<GroupId> := [];
      var cur := u.department;
      var left: nat := |departments|;
      assert AuthTasks.Elems(walked) == {};
      assert u.groups + {} == u.groups && u.(groups := u.groups) == u;
      assert users == old(users)[username := u.(groups := u.groups + {})];
      GroupWalkSoFarStart(departments, groups, nextGroupId, u.department, u.administrative);
      while true
        invariant departments == old(departments) && groups == old(groups) && nextGroupId == old(nextGroupId)
        invariant cachedGroups == old(cachedGroups) && administrative == old(administrative)
        invariant users == old(users)[username := u.(groups := u.groups + AuthTasks.Elems(walked))]
        invariant GroupWalkSoFar(departments, groups, nextGroupId, u.department, u.administrative, walked, cur, left)
        decreases left
      {
        GroupWalkSoFarStop(departments, groups, nextGroupId, u.department, u.administrative, walked, cur, left);
        if cur.None? {
          return Failure(AttributeError);
        }
        var x := cur.value;
        if x !in departments {
          return Failure(DoesNotExist);
        }
        var g := AuthTasks.FindGroup(groups, ScriptGroupName(departments[x], TeacherGroupType), nextGroupId);
        if g.None? {
          return Failure(DoesNotExist);
        }
        AddedStep(old(users), username, u, walked, g.value);
        users := users[username := users[username].(groups := users[username].groups + {g.value})];
        if cur == u.administrative {
          return Success(walked + [g.value]);
        }
        if left == 0 {
          return Failure(Diverges);
        }
        GroupWalkSoFarStep(departments, groups, nextGroupId, u.department, u.administrative, walked, x, left, g.value);
        walked, cur, left := walked + [g.value], departments[x].parent, left - 1;
      }
    }
    /** One turn of the loop of read_teachers_information: the row is
        skipped, or its teacher is fetched or created with the department
        and its administrative department; a created teacher then joins
        the teacher groups from their department up to the administrative
        one and the personal permission group. The teacher's username is
        returned for the dictionary of teachers read so far. */
    method ImportTeacher(row: seq<Cell>, seen: set<string>, byRaw: map<string, DeptId>, personal: GroupId)
      returns (r: Result<Option<string>>)
      requires Valid()
      requires forall raw :: raw in byRaw ==> byRaw[raw] in departments && departments[byRaw[raw]].rawId == raw
      modifies this
      ensures Valid() && departments == old(departments)
      ensures TeacherRow(row, seen, byRaw).Failure? ==> r == Failure(TeacherRow(row, seen, byRaw).error) && users == old(users)
      ensures TeacherRow(row, seen, byRaw) == Success(None) ==> r == Success(None) && users == old(users)
      ensures TeacherRow(row, seen, byRaw).Success? && TeacherRow(row, seen, byRaw).value.Some? ==>
                var f := TeacherRow(row, seen, byRaw).value.value;
                && (AdministrativeOf(departments, f.department).Failure? ==>
                      r == Failure(AdministrativeOf(departments, f.department).error))
                && (AdministrativeOf(departments, f.department).Success?
                    && !UserMatches(old(users), f.username, f.firstName, Some(f.department),
                                    Some(AdministrativeOf(departments, f.department).value)) ==>
                      r == Failure(IntegrityError))
                && (r.Success? ==>
                      && r.value == Some(f.username) && Placed(users, departments, f.username)
                      && users[f.username].department == Some(f.department)
                      && (f.username !in old(users) ==>
                            && personal in users[f.username].groups
                            && WalkTeacherGroups(departments, groups, nextGroupId, Some(f.department),
                                                 users[f.username].administrative, |departments|).Success?
                            && AuthTasks.Elems(WalkTeacherGroups(departments, groups, nextGroupId, Some(f.department),
                                                                 users[f.username].administrative, |departments|).value)
                               <= users[f.username].groups))
      ensures old(users).Keys <= users.Keys
      ensures forall u :: Placed(old(users), departments, u) ==> Placed(users, departments, u)
    {
      var fields := TeacherRow(row, seen, byRaw);
      if fields.Failure? {
        return Failure(fields.error);
      }
      if fields.value.None? {
        return Success(None);
      }
      var f := fields.value.value;
      var a := GetAdministrativeDepartment(Some(f.department));
      if a.Failure? {
        return Failure(a.error);
      }
      ghost var before := users;
      var created := GetOrCreateUser(f.username, f.firstName, Some(f.department), a.value);
      if created.Failure? {
        return Failure(created.error);
      }
      ChangedOnlyGroups(before, users, f.username, departments);
      if created.value {
        ghost var mid := users;
        var joined := JoinNewTeacher(f.username, personal);
        ChangedOnlyGroups(mid, users, f.username, departments);
        if joined.Failure? {
          return Failure(joined.error);
        }
      }
      r := Success(Some(f.username));
    }

    /** The two steps for a created teacher: update_user_groups with
        `user.groups.add`, then the personal permission group. */
    method JoinNewTeacher(username: string, personal: GroupId) returns (r: Result<()>)
      requires Valid() && username in users
      modifies this
      ensures Valid()
      ensures departments == old(departments) && groups == old(groups) && nextGroupId == old(nextGroupId)
      ensures cachedGroups == old(cachedGroups) && administrative == old(administrative)
      ensures username in users && users == old(users)[username := old(users)[username].(groups := users[username].groups)]
      ensures var walk := WalkTeacherGroups(departments, groups, nextGroupId, old(users)[username].department,
                                            old(users)[username].administrative, |departments|);
              && (r.Success? <==> walk.Success?)
              && (r.Failure? ==> r.error == walk.error)
              && (r.Success? ==>
                    users[username].groups == old(users)[username].groups + AuthTasks.Elems(walk.value) + {personal})
    {
      var walked := UpdateUserGroups(username);
      if walked.Failure? {
        return Failure(walked.error);
      }
      users := users[username := users[username].(groups := users[username].groups + {personal})];
      r := Success(());
    }

    /** One turn of the loop of read_teachers_information with the
        dictionary of teachers read so far: `seen` grows by the username
        read, as RowsRead states it. */
    method ReadNext(row: seq<Cell>, seen: set<string>, byRaw: map<string, DeptId>, personal: GroupId)
      returns (r: Result<set<string>>)
      requires Valid()
      requires forall raw :: raw in byRaw ==> byRaw[raw] in departments && departments[byRaw[raw]].rawId == raw
      requires forall u :: u in seen ==> Placed(users, departments, u)
      modifies this
      ensures Valid() && departments == old(departments)
      ensures TeacherRow(row, seen, byRaw).Failure? ==> r.Failure?
      ensures r.Success? ==> r.value == match TeacherRow(row, seen, byRaw)
                                       case Success(Some(f)) => seen + {f.username}
                                       case _ => seen
      ensures r.Success? ==> forall u :: u in r.value ==> Placed(users, departments, u)
    {
      var read := ImportTeacher(row, seen, byRaw, personal);
      if read.Failure? {
        return Failure(read.error);
      }
      r := Success(if read.value.Some? then seen + {read.value.value} else seen);
    }

    /** read_teachers_information over the rows from the third on: every
        teacher read is placed under the administrative department of
        their department, and the usernames read are exactly those RowsRead
        collects; a row that cannot be read makes the whole loop fail. */
    method ReadTeachers(sheet: Sheet, byRaw: map<string, DeptId>, personal: GroupId) returns (r: Result<set<string>>)
      requires Valid()
      requires forall raw :: raw in byRaw ==> byRaw[raw] in departments && departments[byRaw[raw]].rawId == raw
      modifies this
      ensures Valid() && departments == old(departments)
      ensures r.Success? ==> RowsRead(TeacherRows(sheet), byRaw) == Success(r.value)
      ensures RowsRead(TeacherRows(sheet), byRaw).Failure? ==> r.Failure?
      ensures r.Success? ==> forall u :: u in r.value ==> Placed(users, departments, u)
    {
      var seen: set<string> := {};
      var rows := TeacherRows(sheet);
      for k := 0 to |rows|
        invariant Valid() && departments == old(departments)
        invariant RowsRead(rows[..k], byRaw) == Success(seen)
        invariant forall u :: u in seen ==> Placed(users, departments, u)
      {
        RowsReadStep(rows, k, byRaw, seen);
        var read := ReadNext(rows[k], seen, byRaw, personal);
        if read.Failure? {
          return Failure(read.error);
        }
        seen := read.value;
      }
      assert rows[..|rows|] == rows;
      r := Success(seen);
    }
  }
}
