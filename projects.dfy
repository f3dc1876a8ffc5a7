/**
 The projects table: saved project scenarios keyed by a SERIAL id.
 */
module Projects {
  import opened Rates
  import opened Costing
  import Tables

  /** One saved scenario; the assignment is stored as given, whatever roles it names. */
  datatype Project = Project(name: string, duration: int, salesPrice: real, assignment: Assignment)

  type ProjectMap = map<int, Project>

  /** The checks the edit form applies: duration at least 1, price at least 0, every
      headcount at least 0. */
  predicate ValidFigures(p: Project)
  {
    p.duration >= 1 && p.salesPrice >= 0.0 && forall role :: role in p.assignment ==> p.assignment[role] >= 0
  }

  /** UPDATE ... WHERE id = :id: replace all fields of the row with that id; when no row has
      it, nothing matches and the table is unchanged. */
  function Replace(store: ProjectMap, id: int, p: Project): (store': ProjectMap)
    ensures store'.Keys == store.Keys
    ensures id in store ==> store'[id] == p
    ensures forall k :: k in store && k != id ==> store'[k] == store[k]
    ensures id !in store ==> store' == store
  {
    if id in store then store[id := p] else store
  }

  /** A saved project's figures evaluated against a rate table, as the saved-projects list
      and the export show them. */
  ghost function Assess(p: Project, rates: RateTable): (e: Evaluation)
    ensures e.totalCost == TotalCost(rates, p.duration, p.assignment)
    ensures e.profit + e.totalCost == p.salesPrice
    ensures p.salesPrice <= 0.0 ==> e.margin == 0.0
  {
    Evaluate(p.salesPrice, TotalCost(rates, p.duration, p.assignment))
  }

  /** Against a table without negative salaries or fixed costs, a project of non-negative
      duration shows a cost of at least 0. */
  lemma AssessNonNegative(p: Project, rates: RateTable)
    requires NonNegativeRates(rates) && p.duration >= 0
    ensures Assess(p, rates).totalCost >= 0.0
  {
    TotalCostNonNegative(rates, p.duration, p.assignment);
  }

  /** A saved project whose figures passed the form shows a cost of at least 0 and a margin
      of at most 100 percent against any rate table without negative salaries or fixed costs. */
  lemma AssessedMarginAtMostHundred(p: Project, rates: RateTable)
    requires ValidFigures(p) && NonNegativeRates(rates)
    ensures Assess(p, rates).totalCost >= 0.0
    ensures Assess(p, rates).margin <= 100.0
  {
    var e := Assess(p, rates);
    AssessNonNegative(p, rates);
    if p.salesPrice > 0.0 {
      MarginAtMostHundred(p.salesPrice, e.totalCost);
    }
  }

  /** The projects table. `nextId` is the SERIAL sequence: it only grows, so an id is never
      handed out twice, even after its project is deleted. `Issued` is every id handed out. */
  class ProjectTable {
    var projects: ProjectMap
    var nextId: int
    ghost var Issued: set<int>

    ghost predicate Valid()
      reads this
    {
      && nextId >= 1
      && projects.Keys <= Issued
      && (forall id :: id in Issued ==> 1 <= id < nextId)
    }

    /** Every stored project passed the form's checks on its figures. */
    ghost predicate FormChecked()
      reads this
    {
      forall id :: id in projects ==> ValidFigures(projects[id])
    }

    /** CREATE TABLE: no rows, and the sequence starts at 1. */
    constructor ()
      ensures Valid() && projects == map[] && Issued == {} && nextId == 1
    {
      projects := map[];
      nextId := 1;
      Issued := {};
    }

    /** CREATE TABLE IF NOT EXISTS on a table that already exists: its rows and its sequence
        stay as they are. The ids of its rows are the handed-out ids the model knows of; all
        of them lie below the sequence's next value, so later saves still get fresh ids. */
    constructor Open(existing: ProjectMap, next: int)
      requires forall id :: id in existing ==> 1 <= id < next
      requires next >= 1
      ensures Valid() && projects == existing && nextId == next && Issued == existing.Keys
    {
      projects := existing;
      nextId := next;
      Issued := existing.Keys;
    }

    /** save_project: insert the record under a fresh id; the rows already there stay. */
    method SaveProject(name: string, duration: int, salesPrice: real, assignments: Assignment)
      requires Valid()
      modifies this
      ensures Valid()
      ensures old(nextId) !in old(Issued) && old(nextId) !in old(projects)
      ensures projects == old(projects)[old(nextId) := Project(name, duration, salesPrice, assignments)]
      ensures |projects| == |old(projects)| + 1
      ensures Issued == old(Issued) + {old(nextId)} && nextId > old(nextId)
      ensures old(FormChecked()) && ValidFigures(Project(name, duration, salesPrice, assignments)) ==> FormChecked()
    {
      var id := nextId;
      projects := projects[id := Project(name, duration, salesPrice, assignments)];
      Issued := Issued + {id};
      nextId := nextId + 1;
    }

    /** update_project: replace all four fields of the project with that id; a missing id
      changes nothing and is not reported. */
    method UpdateProject(id: int, name: string, duration: int, salesPrice: real, assignments: Assignment)
      requires Valid()
      modifies this
      ensures Valid()
      ensures projects == Replace(old(projects), id, Project(name, duration, salesPrice, assignments))
      ensures nextId == old(nextId) && Issued == old(Issued)
      ensures old(FormChecked()) && ValidFigures(Project(name, duration, salesPrice, assignments)) ==> FormChecked()
    {
      if id in projects {
        projects := projects[id := Project(name, duration, salesPrice, assignments)];
      }
    }

    /** delete_project: remove the project with that id; a missing id changes nothing. */
    method DeleteProject(id: int)
      requires Valid()
      modifies this
      ensures Valid()
      ensures projects == Tables.Remove(old(projects), id)
      ensures nextId == old(nextId) && Issued == old(Issued)
      ensures old(FormChecked()) ==> FormChecked()
    {
      projects := projects - {id};
    }

    /** Recompute every saved project's cost, profit and margin against the current rate
      table, one project at a time. Nothing is stored: a later rate change shows up in the
      figures of projects saved earlier. */
    method AssessAll(rates: RateTable) returns (report: map<int, Evaluation>)
      ensures report.Keys == projects.Keys
      ensures forall id :: id in report ==> report[id] == Assess(projects[id], rates)
    {
      report := map[];
      var remaining := projects.Keys;
      while remaining != {}
        invariant remaining <= projects.Keys
        invariant report.Keys == projects.Keys - remaining
        invariant forall id :: id in report ==> report[id] == Assess(projects[id], rates)
        decreases remaining
      {
        var key := Tables.Choose(remaining);
        var p := projects[key];
        var e := EvaluateProject(p.duration, p.salesPrice, p.assignment, rates);
        report := report[key := e];
        remaining := remaining - {key};
      }
    }
  }

  /** Deleting a project and then saving another never reuses the deleted id. */
  method DeletedIdsAreNotReused(table: ProjectTable, id: int, p: Project)
    requires table.Valid() && id in table.projects
    modifies table
    ensures id !in table.projects
  {
    table.DeleteProject(id);
    table.SaveProject(p.name, p.duration, p.salesPrice, p.assignment);
  }
}
