/**
 Cost, profit and margin of a project: the total cost folds over the role -> headcount
 assignment, looking each role up in a snapshot of the rate table.
 */
module Costing {
  import opened Rates
  import Tables

  /** Headcount per role, as entered on the form or stored with a project. */
  type Assignment = map<string, int>

  /** Working days per year used to turn an annual salary into a daily cost. */
  const WorkingDaysPerYear: real := 220.0

  /** What one assignment entry adds to the total: nothing unless the count is positive and
      the role has a row in the rate table. */
  function EntryCost(rates: RateTable, duration: int, role: string, count: int): (c: real)
    ensures c != 0.0 ==> count > 0 && role in rates
    ensures NonNegativeRates(rates) && duration >= 0 ==> c >= 0.0
  {
    if count > 0 && role in rates then
      var rate := rates[role];
      rate.annualSalary / WorkingDaysPerYear * (duration as real) * (count as real)
        + rate.fixedCost * (count as real)
    else 0.0
  }

  /** A fixed choice of one element of a non-empty set of roles. */
  ghost function PickRole(roles: set<string>): (role: string)
    requires roles != {}
    ensures role in roles
  {
    var role :| role in roles; role
  }

  /** The sum of EntryCost over the entries of `a` whose roles are in `roles`. */
  ghost function CostOver(rates: RateTable, duration: int, a: Assignment, roles: set<string>): real
    requires roles <= a.Keys
    decreases roles
  {
    if roles == {} then 0.0
    else
      var role := PickRole(roles);
      EntryCost(rates, duration, role, a[role]) + CostOver(rates, duration, a, roles - {role})
  }

  /** The total cost of an assignment: the sum of its entries' costs. An assignment that
      charges nothing (every count below 1 or every role unknown, the empty one included)
      costs exactly 0. */
  ghost function TotalCost(rates: RateTable, duration: int, a: Assignment): (r: real)
    ensures (forall role :: role in a ==> a[role] <= 0 || role !in rates) ==> r == 0.0
  {
    CostOverNothingCharged(rates, duration, a, a.Keys);
    CostOver(rates, duration, a, a.Keys)
  }

  /** A partial sum over entries none of which is charged is 0. */
  lemma {:induction false} CostOverNothingCharged(rates: RateTable, duration: int, a: Assignment,
                                                  roles: set<string>)
    requires roles <= a.Keys
    ensures (forall role :: role in roles ==> a[role] <= 0 || role !in rates)
            ==> CostOver(rates, duration, a, roles) == 0.0
    decreases roles
  {
    if roles != {} {
      var role := PickRole(roles);
      CostOverNothingCharged(rates, duration, a, roles - {role});
    }
  }

  /** Any entry can be taken out of the sum first: the total does not depend on the order
      in which the entries are visited. */
  lemma {:induction false} CostOverSplit(rates: RateTable, duration: int, a: Assignment,
                                         roles: set<string>, role: string)
    requires roles <= a.Keys && role in roles
    ensures CostOver(rates, duration, a, roles)
            == EntryCost(rates, duration, role, a[role]) + CostOver(rates, duration, a, roles - {role})
    decreases roles
  {
    var first := PickRole(roles);
    if first != role {
      CostOverSplit(rates, duration, a, roles - {first}, role);
      CostOverSplit(rates, duration, a, roles - {role}, first);
      assert roles - {first} - {role} == roles - {role} - {first};
    }
  }

  /** The sum over `roles` only looks at the entries and rate rows of those roles. */
  lemma {:induction false} CostOverFrame(rates: RateTable, rates': RateTable, duration: int,
                                         a: Assignment, a': Assignment, roles: set<string>)
    requires roles <= a.Keys && roles <= a'.Keys
    requires forall role :: role in roles ==> a[role] == a'[role]
    requires forall role :: role in roles ==> (role in rates <==> role in rates')
    requires forall role :: role in roles && role in rates ==> rates[role] == rates'[role]
    ensures CostOver(rates, duration, a, roles) == CostOver(rates', duration, a', roles)
    decreases roles
  {
    if roles != {} {
      var role := PickRole(roles);
      CostOverFrame(rates, rates', duration, a, a', roles - {role});
    }
  }

  /** The total is the cost of any one entry plus the total of the others. */
  lemma TotalCostSplit(rates: RateTable, duration: int, a: Assignment, role: string)
    requires role in a
    ensures TotalCost(rates, duration, a)
            == EntryCost(rates, duration, role, a[role]) + TotalCost(rates, duration, a - {role})
  {
    CostOverSplit(rates, duration, a, a.Keys, role);
    assert (a - {role}).Keys == a.Keys - {role};
    CostOverFrame(rates, rates, duration, a, a - {role}, a.Keys - {role});
  }

  /** Adding an entry for a role not yet assigned adds exactly that entry's cost: with the
      empty assignment costing 0, this pins the total down as the sum over all entries. */
  lemma TotalCostAddEntry(rates: RateTable, duration: int, a: Assignment, role: string, count: int)
    requires role !in a
    ensures TotalCost(rates, duration, map[]) == 0.0
    ensures TotalCost(rates, duration, a[role := count])
            == TotalCost(rates, duration, a)
               + (if count > 0 && role in rates
                  then rates[role].annualSalary / WorkingDaysPerYear * (duration as real) * (count as real)
                       + rates[role].fixedCost * (count as real)
                  else 0.0)
  {
    TotalCostSplit(rates, duration, a[role := count], role);
    assert a[role := count] - {role} == a;
  }

  /** An entry whose count is not positive, or whose role has no rate row, contributes
      nothing whatever its count: the total equals the total without it. */
  lemma SkippedEntryCostsNothing(rates: RateTable, duration: int, a: Assignment, role: string)
    requires role in a
    requires a[role] <= 0 || role !in rates
    ensures TotalCost(rates, duration, a) == TotalCost(rates, duration, a - {role})
  {
    TotalCostSplit(rates, duration, a, role);
  }

  /** A single role present in the rate table with a non-negative headcount costs exactly
      daily rate * duration * count + fixed cost * count. */
  lemma SingleRoleCost(rates: RateTable, duration: int, role: string, count: int)
    requires role in rates && count >= 0
    ensures TotalCost(rates, duration, map[role := count])
            == rates[role].annualSalary / WorkingDaysPerYear * (duration as real) * (count as real)
               + rates[role].fixedCost * (count as real)
  {
    var empty: Assignment := map[];
    assert empty[role := count] == map[role := count];
    TotalCostAddEntry(rates, duration, empty, role, count);
    if count == 0 {
      assert rates[role].annualSalary / WorkingDaysPerYear * (duration as real) * (count as real) == 0.0;
      assert rates[role].fixedCost * (count as real) == 0.0;
    }
  }

  /** With non-negative salaries, fixed costs and duration, every partial sum is
      non-negative (counts need not be: a count below 1 is never charged). */
  lemma {:induction false} CostOverNonNegative(rates: RateTable, duration: int, a: Assignment,
                                               roles: set<string>)
    requires NonNegativeRates(rates) && duration >= 0 && roles <= a.Keys
    ensures CostOver(rates, duration, a, roles) >= 0.0
    decreases roles
  {
    if roles != {} {
      var role := PickRole(roles);
      CostOverNonNegative(rates, duration, a, roles - {role});
    }
  }

  /** With non-negative salaries, fixed costs and duration the total cost is never negative,
      whatever the counts. */
  lemma TotalCostNonNegative(rates: RateTable, duration: int, a: Assignment)
    requires NonNegativeRates(rates) && duration >= 0
    ensures TotalCost(rates, duration, a) >= 0.0
  {
    CostOverNonNegative(rates, duration, a, a.Keys);
  }

  /** A rate table whose rows all passed the role form never yields a negative cost. */
  lemma WellFormedTotalCostNonNegative(rates: RateTable, duration: int, a: Assignment)
    requires WellFormed(rates) && duration >= 0
    ensures TotalCost(rates, duration, a) >= 0.0
  {
    WellFormedIsNonNegative(rates);
    TotalCostNonNegative(rates, duration, a);
  }

  /** The cost depends only on the rate rows of the assigned roles: editing or deleting the
      row of a role that is not assigned leaves every cost as it was. */
  lemma TotalCostDependsOnAssignedRoles(rates: RateTable, rates': RateTable, duration: int, a: Assignment)
    requires forall role :: role in a ==> (role in rates <==> role in rates')
    requires forall role :: role in a && role in rates ==> rates[role] == rates'[role]
    ensures TotalCost(rates, duration, a) == TotalCost(rates', duration, a)
  {
    CostOverFrame(rates, rates', duration, a, a, a.Keys);
  }

  /** Costs are recomputed from the live table: deleting an assigned role's rate row has the
      same effect as dropping that role from the assignment. */
  lemma DeletingRateDropsRole(rates: RateTable, duration: int, a: Assignment, role: string)
    requires role in a
    ensures TotalCost(Tables.Remove(rates, role), duration, a) == TotalCost(rates, duration, a - {role})
  {
    SkippedEntryCostsNothing(Tables.Remove(rates, role), duration, a, role);
    TotalCostDependsOnAssignedRoles(Tables.Remove(rates, role), rates, duration, a - {role});
  }

  /** calculate_costs: visit the entries one by one, charging the positive counts of roles
      that the rate table knows. `rates` is the snapshot of the consultants table it reads. */
  method CalculateCosts(duration: int, assignments: Assignment, rates: RateTable) returns (totalCost: real)
    ensures totalCost == TotalCost(rates, duration, assignments)
  {
    totalCost := 0.0;
    var remaining := assignments.Keys;
    while remaining != {}
      invariant remaining <= assignments.Keys
      invariant totalCost + CostOver(rates, duration, assignments, remaining)
                == TotalCost(rates, duration, assignments)
      decreases remaining
    {
      var role := Tables.Choose(remaining);
      var count := assignments[role];
      ghost var before := totalCost;
      if count > 0 {
        if role in rates {
          var row := rates[role];
          var dailyCost := row.annualSalary / WorkingDaysPerYear;
          var roleCost := dailyCost * (duration as real) * (count as real) + row.fixedCost * (count as real);
          totalCost := totalCost + roleCost;
        }
      }
      assert totalCost == before + EntryCost(rates, duration, role, count);
      CostOverSplit(rates, duration, assignments, remaining, role);
      remaining := remaining - {role};
    }
  }

  /** The figures shown for a project: total cost, profit and margin in percent. */
  datatype Evaluation = Evaluation(totalCost: real, profit: real, margin: real)

  /** Profit and margin from a sales price and a total cost; the margin is 0 whenever the
      price is not positive, so there is no division by zero. */
  function Evaluate(salesPrice: real, totalCost: real): (e: Evaluation)
    ensures e.totalCost == totalCost
    ensures e.profit + totalCost == salesPrice
    ensures salesPrice <= 0.0 ==> e.margin == 0.0
  {
    var profit := salesPrice - totalCost;
    var margin := if salesPrice > 0.0 then profit / salesPrice * 100.0 else 0.0;
    Evaluation(totalCost, profit, margin)
  }

  /** For a positive price the margin is the profit as a percentage of the price. */
  lemma MarginIsProfitShare(salesPrice: real, totalCost: real)
    requires salesPrice > 0.0
    ensures Evaluate(salesPrice, totalCost).margin * salesPrice == 100.0 * Evaluate(salesPrice, totalCost).profit
  {
  }

  /** For a positive price the margin is negative exactly when the cost exceeds the price,
      and zero exactly when they are equal. */
  lemma MarginSign(salesPrice: real, totalCost: real)
    requires salesPrice > 0.0
    ensures Evaluate(salesPrice, totalCost).margin < 0.0 <==> totalCost > salesPrice
    ensures Evaluate(salesPrice, totalCost).margin == 0.0 <==> totalCost == salesPrice
  {
  }

  /** A non-negative cost caps the margin at 100 percent, reached only at zero cost. */
  lemma MarginAtMostHundred(salesPrice: real, totalCost: real)
    requires salesPrice > 0.0 && totalCost >= 0.0
    ensures Evaluate(salesPrice, totalCost).margin <= 100.0
    ensures Evaluate(salesPrice, totalCost).margin == 100.0 <==> totalCost == 0.0
  {
  }

  /** The result block of the form and of each saved project: compute the total cost
      against the current rate table, then profit and margin from it. */
  method EvaluateProject(duration: int, salesPrice: real, assignments: Assignment, rates: RateTable)
    returns (e: Evaluation)
    ensures e == Evaluate(salesPrice, TotalCost(rates, duration, assignments))
  {
    var totalCost := CalculateCosts(duration, assignments, rates);
    e := Evaluate(salesPrice, totalCost);
  }

  /** Worked example: 30 days, price 10000, two Strategy Consultants at the seeded rate
      (27000, 500) cost 92000/11 (about 8363.64), leaving a profit of 18000/11 (about
      1636.36) and a margin of 180/11 percent (about 16.36). */
  lemma StrategyConsultantExample()
    ensures TotalCost(Seed(map[], Defaults), 30, map["Strategy Consultant" := 2]) == 92000.0 / 11.0
    ensures Evaluate(10000.0, 92000.0 / 11.0) == Evaluation(92000.0 / 11.0, 18000.0 / 11.0, 180.0 / 11.0)
  {
    SeedTwiceOnEmptyHasFourRows();
    SingleRoleCost(DefaultTable, 30, "Strategy Consultant", 2);
  }

  /** Worked example: a role missing from the table costs nothing, whatever its count, and a
      price of 0 gives a margin of 0 rather than a division error. */
  lemma GhostRoleExample(count: int)
    ensures TotalCost(DefaultTable, 30, map["Ghost Role" := count]) == 0.0
    ensures Evaluate(0.0, TotalCost(DefaultTable, 30, map["Ghost Role" := count])).margin == 0.0
  {
    var a := map["Ghost Role" := count];
    assert "Ghost Role" !in DefaultTable;
    SkippedEntryCostsNothing(DefaultTable, 30, a, "Ghost Role");
    assert a - {"Ghost Role"} == map[];
  }
}
