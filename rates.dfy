/**
 The consultant rate table: role -> (annual salary, fixed cost per assigned consultant).
 `role` is the table's primary key, so the table is a finite map and there is at most one
 row per role by construction.
 */
module Rates {
  import Tables

  /** One row of the consultants table, without its key. */
  datatype Rate = Rate(annualSalary: real, fixedCost: real)

  type RateTable = map<string, Rate>

  /** The four rows seeded on initialization, in the order they are inserted. */
  const Defaults: seq<(string, Rate)> := [
    ("Strategy Consultant", Rate(27000.0, 500.0)),
    ("Senior Strategy Consultant", Rate(40000.0, 1000.0)),
    ("IT Consultant", Rate(24000.0, 500.0)),
    ("Senior IT Consultant", Rate(37000.0, 1000.0))
  ]

  /** The table the four defaults form on their own. */
  const DefaultTable: RateTable := map[
    "Strategy Consultant" := Rate(27000.0, 500.0),
    "Senior Strategy Consultant" := Rate(40000.0, 1000.0),
    "IT Consultant" := Rate(24000.0, 500.0),
    "Senior IT Consultant" := Rate(37000.0, 1000.0)
  ]

  /** The table a list of rows forms on its own; of two rows with one role the first wins. */
  function TableOf(rows: seq<(string, Rate)>): RateTable
    decreases |rows|
  {
    if rows == [] then map[] else TableOf(rows[1..])[rows[0].0 := rows[0].1]
  }

  /** The input checks the management form applies before an upsert: a non-empty role,
      and salary and fixed cost entered through fields whose minimum is 0. */
  predicate ValidRateInput(role: string, rate: Rate)
  {
    role != "" && rate.annualSalary >= 0.0 && rate.fixedCost >= 0.0
  }

  /** Every row of the table could have been entered through the form. */
  predicate WellFormed(t: RateTable)
  {
    forall role :: role in t ==> ValidRateInput(role, t[role])
  }

  /** No salary and no fixed cost in the table is negative. */
  predicate NonNegativeRates(t: RateTable)
  {
    forall role :: role in t ==> t[role].annualSalary >= 0.0 && t[role].fixedCost >= 0.0
  }

  /** Rows entered through the form carry no negative salary or fixed cost. */
  lemma WellFormedIsNonNegative(t: RateTable)
    requires WellFormed(t)
    ensures NonNegativeRates(t)
  {
  }

  /** INSERT ... ON CONFLICT (role) DO NOTHING. */
  function InsertIfAbsent(t: RateTable, role: string, rate: Rate): (t': RateTable)
    ensures t'.Keys == t.Keys + {role}
    ensures role in t ==> t'[role] == t[role]
    ensures role !in t ==> t'[role] == rate
    ensures forall k :: k in t ==> t'[k] == t[k]
  {
    if role in t then t else t[role := rate]
  }

  /** Insert every row of `rows`, in order, each only where its role is absent. */
  function Seed(t: RateTable, rows: seq<(string, Rate)>): (r: RateTable)
    ensures t.Keys <= r.Keys
    ensures forall i :: 0 <= i < |rows| ==> rows[i].0 in r
    decreases |rows|
  {
    if rows == [] then t
    else Seed(InsertIfAbsent(t, rows[0].0, rows[0].1), rows[1..])
  }

  /** INSERT ... ON CONFLICT (role) DO UPDATE SET annual_salary, fixed_cost. */
  function Upsert(t: RateTable, role: string, rate: Rate): (t': RateTable)
    ensures t'.Keys == t.Keys + {role}
    ensures t'[role] == rate
    ensures forall k :: k in t && k != role ==> t'[k] == t[k]
  {
    t[role := rate]
  }

  /** Seeding never overwrites a row that is already there. */
  lemma {:induction false} SeedKeepsExisting(t: RateTable, rows: seq<(string, Rate)>, role: string)
    requires role in t
    ensures role in Seed(t, rows) && Seed(t, rows)[role] == t[role]
    decreases |rows|
  {
    if rows != [] {
      SeedKeepsExisting(InsertIfAbsent(t, rows[0].0, rows[0].1), rows[1..], role);
    }
  }

  /** Seeding is an overlay: the rows to seed, overridden by every row already present. */
  lemma {:induction false} SeedIsOverlay(t: RateTable, rows: seq<(string, Rate)>)
    ensures Seed(t, rows) == TableOf(rows) + t
    decreases |rows|
  {
    if rows == [] {
      assert map[] + t == t;
    } else {
      var t1 := InsertIfAbsent(t, rows[0].0, rows[0].1);
      SeedIsOverlay(t1, rows[1..]);
      assert TableOf(rows[1..]) + t1 == TableOf(rows) + t;
    }
  }

  /** Running the seeding a second time changes nothing. */
  lemma SeedIdempotent(t: RateTable, rows: seq<(string, Rate)>)
    ensures Seed(Seed(t, rows), rows) == Seed(t, rows)
  {
    SeedIsOverlay(t, rows);
    SeedIsOverlay(Seed(t, rows), rows);
    assert TableOf(rows) + (TableOf(rows) + t) == TableOf(rows) + t;
  }

  /** The four default rows form the default table. */
  lemma DefaultsFormDefaultTable()
    ensures TableOf(Defaults) == DefaultTable
  {
  }

  /** Seeding the defaults keeps every existing row and adds the default row of each
      missing role. */
  lemma SeedDefaultsIsOverlay(t: RateTable)
    ensures Seed(t, Defaults) == DefaultTable + t
  {
    SeedIsOverlay(t, Defaults);
    DefaultsFormDefaultTable();
  }

  /** The default table has four rows, one per default role. */
  lemma DefaultTableHasFourRows()
    ensures |DefaultTable| == 4
  {
  }

  /** On an empty table seeding creates exactly the four default rows; seeding twice still
      leaves four rows, not eight. */
  lemma SeedTwiceOnEmptyHasFourRows()
    ensures Seed(map[], Defaults) == DefaultTable
    ensures Seed(Seed(map[], Defaults), Defaults) == DefaultTable
    ensures |Seed(Seed(map[], Defaults), Defaults)| == 4
  {
    var empty: RateTable := map[];
    SeedDefaultsIsOverlay(empty);
    assert DefaultTable + empty == DefaultTable;
    SeedIdempotent(empty, Defaults);
    DefaultTableHasFourRows();
  }

  /** The default rows pass the form's own checks. */
  lemma DefaultTableWellFormed()
    ensures WellFormed(DefaultTable)
  {
  }

  /** Seeding a well-formed table keeps it well formed. */
  lemma SeedPreservesWellFormed(t: RateTable)
    requires WellFormed(t)
    ensures WellFormed(Seed(t, Defaults))
  {
    SeedDefaultsIsOverlay(t);
    DefaultTableWellFormed();
    forall role | role in DefaultTable + t ensures ValidRateInput(role, (DefaultTable + t)[role]) {
      if role !in t {
        assert (DefaultTable + t)[role] == DefaultTable[role];
      }
    }
  }

  /** The script seeds again on every run, so deleting a default role is undone by the next
      run: the role is back with its default salary and fixed cost. */
  lemma DeletedDefaultRoleReturns(t: RateTable, role: string)
    requires role in DefaultTable
    ensures role in Seed(Tables.Remove(t, role), Defaults)
    ensures Seed(Tables.Remove(t, role), Defaults)[role] == DefaultTable[role]
  {
    SeedDefaultsIsOverlay(Tables.Remove(t, role));
  }

  /** Deleting a role keeps every remaining row valid. */
  lemma RemovePreservesWellFormed(t: RateTable, role: string)
    requires WellFormed(t)
    ensures WellFormed(Tables.Remove(t, role))
  {
  }

  /** An upsert of a row that passed the form's checks keeps the table well formed. */
  lemma UpsertPreservesWellFormed(t: RateTable, role: string, rate: Rate)
    requires WellFormed(t) && ValidRateInput(role, rate)
    ensures WellFormed(Upsert(t, role, rate))
  {
  }

  /** Upserting the same role twice leaves one row for it, holding the later values. */
  lemma UpsertTwiceKeepsLatest(t: RateTable, role: string, first: Rate, second: Rate)
    ensures Upsert(Upsert(t, role, first), role, second) == Upsert(t, role, second)
    ensures |Upsert(Upsert(t, role, first), role, second)| == |t| + (if role in t then 0 else 1)
  {
  }

  /** The consultants table as the application holds it: the database's current contents. */
  class ConsultantTable {
    var rates: RateTable

    /** Open a table that already holds `existing` (empty when the table was just created). */
    constructor (existing: RateTable)
      ensures rates == existing
    {
      rates := existing;
    }

    /** The seeding part of init_db: insert each default row unless its role is present. */
    method SeedDefaults()
      modifies this
      ensures rates == Seed(old(rates), Defaults)
      ensures rates == DefaultTable + old(rates)
      ensures WellFormed(old(rates)) ==> WellFormed(rates)
    {
      var i := 0;
      while i < |Defaults|
        invariant 0 <= i <= |Defaults|
        invariant Seed(rates, Defaults[i..]) == Seed(old(rates), Defaults)
      {
        var (role, rate) := Defaults[i];
        assert Defaults[i..][1..] == Defaults[i + 1..];
        if role !in rates {
          rates := rates[role := rate];
        }
        i := i + 1;
      }
      SeedDefaultsIsOverlay(old(rates));
      if WellFormed(old(rates)) {
        SeedPreservesWellFormed(old(rates));
      }
    }

    /** add_consultant: insert the role, or overwrite its salary and fixed cost. */
    method AddConsultant(role: string, annualSalary: real, fixedCost: real)
      modifies this
      ensures rates == Upsert(old(rates), role, Rate(annualSalary, fixedCost))
      ensures WellFormed(old(rates)) && ValidRateInput(role, Rate(annualSalary, fixedCost)) ==> WellFormed(rates)
    {
      rates := rates[role := Rate(annualSalary, fixedCost)];
    }

    /** delete_consultant: remove the role's row; nothing happens when there is none. */
    method DeleteConsultant(role: string)
      modifies this
      ensures rates == Tables.Remove(old(rates), role)
      ensures WellFormed(old(rates)) ==> WellFormed(rates)
    {
      rates := rates - {role};
    }
  }
}
