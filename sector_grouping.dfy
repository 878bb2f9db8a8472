/**
 The grouping done by the `/solutions/projects` route before it renders the
 catalogue: a fold over the projects that files each one under its sector's
 name, appending, so that every group keeps the input order.

 The route folds into a plain object literal, whose lookups also see the
 properties every object inherits. `GroupBySectorAsWritten` models that and
 fails exactly for the sectors named like one of those properties;
 `GroupBySector` is the fold into a dictionary without inherited entries,
 which the properties below are about.
 */
module SectorGrouping {

  /** A project as the route sees it; only the sector's name matters here. */
  datatype Project = Project(id: int, title: string, sectorName: string)

  /** The names of the sectors the projects belong to. */
  function SectorsOf(projects: seq<Project>): set<string>
    decreases |projects|
  {
    if projects == [] then {}
    else SectorsOf(projects[..|projects| - 1]) + {projects[|projects| - 1].sectorName}
  }

  /** Every project's sector is among them, and each of them is some project's sector. */
  lemma {:induction false} SectorsOfIsSectorNames(projects: seq<Project>)
    ensures forall i :: 0 <= i < |projects| ==> projects[i].sectorName in SectorsOf(projects)
    ensures forall s :: s in SectorsOf(projects) ==>
              exists i :: 0 <= i < |projects| && projects[i].sectorName == s
    decreases |projects|
  {
    if projects != [] {
      var front := projects[..|projects| - 1];
      SectorsOfIsSectorNames(front);
      assert forall i :: 0 <= i < |front| ==> front[i] == projects[i];
    }
  }

  /** The projects of sector `s`, in input order. */
  function InSector(projects: seq<Project>, s: string): seq<Project>
    decreases |projects|
  {
    if projects == [] then []
    else
      var last := projects[|projects| - 1];
      InSector(projects[..|projects| - 1], s) + (if last.sectorName == s then [last] else [])
  }

  /** The group of sector `s` is the input with every other sector's projects removed. */
  lemma {:induction false} InSectorIsFilter(projects: seq<Project>, s: string)
    ensures forall p :: p in InSector(projects, s) ==> p in projects && p.sectorName == s
    ensures forall p :: p in projects && p.sectorName == s ==>
              multiset(InSector(projects, s))[p] == multiset(projects)[p]
    ensures forall p: Project :: p.sectorName != s ==> multiset(InSector(projects, s))[p] == 0
    decreases |projects|
  {
    if projects != [] {
      var front := projects[..|projects| - 1];
      InSectorIsFilter(front, s);
      assert projects == front + [projects[|projects| - 1]];
    }
  }

  /**
   Grouping respects the input order: the group of a concatenation is the
   first part's group followed by the second part's.
   */
  lemma {:induction false} InSectorConcat(xs: seq<Project>, ys: seq<Project>, s: string)
    ensures InSector(xs + ys, s) == InSector(xs, s) + InSector(ys, s)
    decreases |ys|
  {
    if ys == [] {
      assert xs + ys == xs;
    } else {
      var ys' := ys[..|ys| - 1];
      assert (xs + ys)[..|xs + ys| - 1] == xs + ys';
      InSectorConcat(xs, ys', s);
    }
  }

  /** A sector that no project has gets no projects. */
  lemma {:induction false} InSectorAbsent(projects: seq<Project>, s: string)
    requires s !in SectorsOf(projects)
    ensures InSector(projects, s) == []
    decreases |projects|
  {
    if projects != [] {
      var front := projects[..|projects| - 1];
      assert SectorsOf(front) <= SectorsOf(projects);
      InSectorAbsent(front, s);
    }
  }

  /** No group is empty: every sector that occurs has at least one project. */
  lemma {:induction false} InSectorNonEmpty(projects: seq<Project>, s: string)
    requires s in SectorsOf(projects)
    ensures |InSector(projects, s)| > 0
  {
    SectorsOfIsSectorNames(projects);
    var i :| 0 <= i < |projects| && projects[i].sectorName == s;
    InSectorIsFilter(projects, s);
    assert projects[i] in projects;
    assert multiset(InSector(projects, s))[projects[i]] == multiset(projects)[projects[i]] > 0;
  }

  /** The sector names, each once, listed as they first occur. */
  function SectorOrder(projects: seq<Project>): (r: seq<string>)
    ensures forall i, j :: 0 <= i < j < |r| ==> r[i] != r[j]
    ensures forall s :: s in r <==> s in SectorsOf(projects)
    decreases |projects|
  {
    if projects == [] then []
    else
      var front := projects[..|projects| - 1];
      var s := projects[|projects| - 1].sectorName;
      assert forall t :: t in SectorsOf(projects) <==> t in SectorsOf(front) || t == s by {
        assert projects == front + [projects[|projects| - 1]];
      }
      if s in SectorOrder(front) then SectorOrder(front) else SectorOrder(front) + [s]
  }

  /** The index of the first project of sector `s`, or `|projects|` when there is none. */
  function FirstIndex(projects: seq<Project>, s: string): (k: nat)
    ensures k <= |projects|
    ensures k < |projects| ==> projects[k].sectorName == s
    ensures forall j :: 0 <= j < k ==> projects[j].sectorName != s
  {
    if projects == [] then 0
    else if projects[0].sectorName == s then 0
    else 1 + FirstIndex(projects[1..], s)
  }

  /** Appending a project leaves the first occurrences already present where they were. */
  lemma FirstIndexSnoc(front: seq<Project>, p: Project, s: string)
    ensures FirstIndex(front, s) < |front| ==> FirstIndex(front + [p], s) == FirstIndex(front, s)
    ensures FirstIndex(front, s) == |front| && p.sectorName == s ==> FirstIndex(front + [p], s) == |front|
  {
    var all := front + [p];
    var k, k' := FirstIndex(front, s), FirstIndex(all, s);
    if k < |front| {
      assert all[k] == front[k];
    } else if p.sectorName == s {
      assert all[|front|] == p;
    }
  }

  /**
   The order of `SectorOrder` is that of first occurrence: each sector listed
   occurs, and a sector listed earlier first occurs earlier.
   */
  lemma {:induction false} SectorOrderIsFirstOccurrence(projects: seq<Project>)
    ensures forall i :: 0 <= i < |SectorOrder(projects)| ==>
              FirstIndex(projects, SectorOrder(projects)[i]) < |projects|
    ensures forall i, j :: 0 <= i < j < |SectorOrder(projects)| ==>
              FirstIndex(projects, SectorOrder(projects)[i]) < FirstIndex(projects, SectorOrder(projects)[j])
    decreases |projects|
  {
    if projects != [] {
      var front := projects[..|projects| - 1];
      var p := projects[|projects| - 1];
      assert projects == front + [p];
      SectorOrderIsFirstOccurrence(front);
      var r', r := SectorOrder(front), SectorOrder(projects);
      forall i | 0 <= i < |r'| ensures FirstIndex(projects, r'[i]) == FirstIndex(front, r'[i]) {
        FirstIndexSnoc(front, p, r'[i]);
      }
      if p.sectorName !in r' {
        assert r == r' + [p.sectorName];
        SectorsOfIsSectorNames(front);
        assert FirstIndex(front, p.sectorName) == |front|;
        FirstIndexSnoc(front, p, p.sectorName);
      }
    }
  }

  /** The groups of `sectors`, one after the other. */
  function Concat(projects: seq<Project>, sectors: seq<string>): seq<Project>
  {
    if sectors == [] then [] else InSector(projects, sectors[0]) + Concat(projects, sectors[1..])
  }

  lemma {:induction false} ConcatSnocSector(projects: seq<Project>, sectors: seq<string>, s: string)
    ensures Concat(projects, sectors + [s]) == Concat(projects, sectors) + InSector(projects, s)
  {
    if sectors != [] {
      assert (sectors + [s])[1..] == sectors[1..] + [s];
      ConcatSnocSector(projects, sectors[1..], s);
    }
  }

  lemma {:induction false} ConcatSnocProject(projects: seq<Project>, p: Project, sectors: seq<string>)
    requires forall i, j :: 0 <= i < j < |sectors| ==> sectors[i] != sectors[j]
    ensures multiset(Concat(projects + [p], sectors)) ==
            multiset(Concat(projects, sectors)) + (if p.sectorName in sectors then multiset{p} else multiset{})
  {
    if sectors != [] {
      var rest := sectors[1..];
      assert (projects + [p])[..|projects + [p]| - 1] == projects;
      ConcatSnocProject(projects, p, rest);
      assert p.sectorName in sectors <==> p.sectorName == sectors[0] || p.sectorName in rest;
    }
  }

  /**
   Every project is in exactly one group: together, the groups hold the
   input and nothing more, so the group sizes add up to the number of projects.
   */
  lemma {:induction false} GroupsPartitionProjects(projects: seq<Project>)
    ensures multiset(Concat(projects, SectorOrder(projects))) == multiset(projects)
    ensures |Concat(projects, SectorOrder(projects))| == |projects|
    decreases |projects|
  {
    if projects != [] {
      var front := projects[..|projects| - 1];
      var p := projects[|projects| - 1];
      assert projects == front + [p];
      GroupsPartitionProjects(front);
      ConcatSnocProject(front, p, SectorOrder(front));
      if p.sectorName !in SectorOrder(front) {
        ConcatSnocSector(projects, SectorOrder(front), p.sectorName);
        InSectorAbsent(front, p.sectorName);
        assert InSector(projects, p.sectorName) == [p];
      }
    }
    assert |Concat(projects, SectorOrder(projects))| == |multiset(Concat(projects, SectorOrder(projects)))|;
  }

  /** The grouped catalogue: one entry per sector, holding its projects in order. */
  ghost predicate IsGrouping(projects: seq<Project>, grouped: map<string, seq<Project>>)
  {
    && grouped.Keys == SectorsOf(projects)
    && forall s :: s in grouped ==> grouped[s] == InSector(projects, s)
  }

  /**
   The fold `projects.reduce((acc, project) => ..., {})` into an accumulator
   with no inherited entries.
   */
  method GroupBySector(projects: seq<Project>) returns (grouped: map<string, seq<Project>>)
    ensures grouped.Keys == SectorsOf(projects)
    ensures forall s :: s in grouped ==> grouped[s] == InSector(projects, s)
  {
    grouped := map[];
    for i := 0 to |projects|
      invariant IsGrouping(projects[..i], grouped)
    {
      grouped := Push(grouped, projects[..i], projects[i]);
      assert projects[..i] + [projects[i]] == projects[..i + 1];
    }
    assert projects[..|projects|] == projects;
  }

  /** One step of the fold: file `project` under its sector, starting the group if needed. */
  function Push(acc: map<string, seq<Project>>, ghost done: seq<Project>, project: Project)
    : (r: map<string, seq<Project>>)
    requires IsGrouping(done, acc)
    ensures IsGrouping(done + [project], r)
  {
    var sector := project.sectorName;
    var group := if sector in acc then acc[sector] else [];
    var r := acc[sector := group + [project]];
    PushStep(acc, done, project, r);
    r
  }

  lemma PushStep(acc: map<string, seq<Project>>, done: seq<Project>, project: Project,
                 r: map<string, seq<Project>>)
    requires IsGrouping(done, acc)
    requires r == acc[project.sectorName := (if project.sectorName in acc then acc[project.sectorName] else []) + [project]]
    ensures IsGrouping(done + [project], r)
  {
    var all := done + [project];
    var sector := project.sectorName;
    assert all[..|all| - 1] == done;
    assert all[|all| - 1] == project;
    assert SectorsOf(all) == SectorsOf(done) + {sector};
    assert r.Keys == acc.Keys + {sector};
    forall s | s in r ensures r[s] == InSector(all, s) {
      InSectorSnoc(done, project, s);
      if s == sector && s !in acc {
        InSectorAbsent(done, s);
      }
    }
  }

  lemma InSectorSnoc(done: seq<Project>, project: Project, s: string)
    ensures InSector(done + [project], s) ==
            InSector(done, s) + (if project.sectorName == s then [project] else [])
  {
    var all := done + [project];
    assert all[..|all| - 1] == done;
  }

  /**
   The names every object literal inherits (the properties of
   `Object.prototype`). Looking one of them up in `{}` yields a function or an
   object, never `undefined`.
   */
  const InheritedNames: seq<string> := [
    "constructor", "__proto__", "toString", "toLocaleString", "valueOf",
    "hasOwnProperty", "isPrototypeOf", "propertyIsEnumerable",
    "__defineGetter__", "__defineSetter__", "__lookupGetter__", "__lookupSetter__" ]

  /** Whether `name` is one of the inherited property names. */
  predicate IsInherited(name: string)
  {
    name in InheritedNames
  }

  /** Whether some project's sector is named like an inherited property. */
  predicate HasInheritedSector(projects: seq<Project>)
  {
    exists i :: 0 <= i < |projects| && IsInherited(projects[i].sectorName)
  }

  datatype GroupOutcome = Grouped(groups: map<string, seq<Project>>) | Crashed(message: string)

  /**
   The fold as written, on an object literal: for an inherited name the
   `!acc[sector]` test is false, no group is started, and `push` is looked up
   on the inherited value, which has none, so the route fails with a
   `TypeError` (and renders its error page).
   */
  method GroupBySectorAsWritten(projects: seq<Project>) returns (outcome: GroupOutcome)
    ensures outcome.Crashed? <==> HasInheritedSector(projects)
    ensures outcome.Crashed? ==> outcome.message == "acc[sector].push is not a function"
    ensures outcome.Grouped? ==> outcome.groups.Keys == SectorsOf(projects)
    ensures outcome.Grouped? ==> forall s :: s in outcome.groups ==> outcome.groups[s] == InSector(projects, s)
  {
    var acc := map[];
    for i := 0 to |projects|
      invariant IsGrouping(projects[..i], acc)
      invariant !HasInheritedSector(projects[..i])
    {
      if IsInherited(projects[i].sectorName) {
        return Crashed("acc[sector].push is not a function");
      }
      acc := Push(acc, projects[..i], projects[i]);
      assert projects[..i] + [projects[i]] == projects[..i + 1];
    }
    assert projects[..|projects|] == projects;
    return Grouped(acc);
  }

  /**
   The discrepancy on one input: a single project whose sector is named
   "constructor" crashes the fold as written, and is grouped by the fold
   without inherited entries.
   */
  method ConstructorSectorExample() returns (asWritten: GroupOutcome, corrected: map<string, seq<Project>>)
    ensures asWritten.Crashed?
    ensures corrected == map["constructor" := [Project(1, "Wind farm", "constructor")]]
  {
    var p := Project(1, "Wind farm", "constructor");
    asWritten := GroupBySectorAsWritten([p]);
    corrected := GroupBySector([p]);
    assert [p][..0] == [];
    assert SectorsOf([p]) == {"constructor"};
    assert InSector([p], "constructor") == [p];
  }
}
