# Consulting project evaluator: a Dafny model

A consulting firm sells a project at a price. The project runs for a number of days and is
staffed with a mix of consultant roles. The evaluator computes what the staffing costs, the
profit that is left and the margin in percent. It keeps two tables: the consultants' rate
card (role → annual salary, fixed cost per assigned consultant) and the saved projects.

This project models the part beneath the web form:

- `tables.dfy` (module `Tables`): deleting a row by primary key, which both tables share,
  and picking the next row a loop visits.
- `rates.dfy` (module `Rates`): the rate table as a map keyed by role. It covers seeding the
  four default roles only where they are absent (`init_db`), the upsert of `add_consultant`
  and the delete of `delete_consultant`. It also gives the form's input checks as a
  predicate. Class `ConsultantTable` holds the table and updates it in place.
- `costing.dfy` (module `Costing`): `calculate_costs` as a loop over the role → headcount
  assignment. The loop is proved equal to `TotalCost`, the sum of the entries' costs. That
  sum is order-independent: any entry can be taken out first. The module also gives profit
  and margin, where the margin is 0 unless the price is positive.
- `projects.dfy` (module `Projects`): the projects table as a map from SERIAL id to record.
  Class `ProjectTable` models `save_project` (fresh id, never reused), `update_project`
  (full replace; a missing id is a silent no-op) and `delete_project`. It also recomputes
  every saved project's figures against the current rate table.

Arithmetic is exact (`real`). Python floats and their rounding are abstracted away. The
database reads (`get_consultants`, `get_projects`) are the class fields themselves. The rate
snapshot that `calculate_costs` reads is passed in as a parameter.

Two places where the code's own comments or error handling suggest more than the code does;
the model follows the code:

- The comment at app.py:22 says the defaults are inserted "if table is empty". The loop at
  app.py:29-34 inserts every default role that is absent, even into a non-empty table, and
  `Rates.Seed` models the loop.
- `init_db()` runs at module level (app.py:47), and the page script runs again on every
  interaction; "Delete Role" re-runs it straight away (app.py:333-335). So the seeding loop
  runs again after every delete, and a deleted default role comes back with its default
  salary and fixed cost (`Rates.DeletedDefaultRoleReturns`). For the four default roles,
  deleting the row amounts to resetting it.
- The `UPDATE` at app.py:84-94 matches no row when the id is missing, and nothing checks
  the row count, so `update_project` on a missing id changes nothing and reports nothing.

The store functions validate nothing. The checks for a non-empty role, `duration >= 1`,
`sales_price >= 0` and non-negative salaries, fixed costs and counts exist only in the form
widgets (app.py:172-173, 180-181, 232-239, 318-322). The model states them as the predicates
`Rates.ValidRateInput`, `Rates.WellFormed`, `Rates.NonNegativeRates` and
`Projects.ValidFigures`. They are hypotheses of lemmas, not preconditions of the store
operations. The project-name check of the save button (app.py:198-201) is not one of them;
see "## Left out".

## Model

| member | source | states |
|---|---|---|
| `Tables.Remove` | app.py:97-100 | deleting by key removes exactly that key, keeps every other row, and changes nothing when the key is absent (both tables) |
| `Rates.ValidRateInput` | app.py:318-322 | the role-form checks: a non-empty role name, and salary and fixed cost of at least 0 |
| `Rates.WellFormedIsNonNegative` | app.py:319-320 | every row entered through the role form has a non-negative salary and fixed cost |
| `Rates.InsertIfAbsent` | app.py:30-34 | `ON CONFLICT DO NOTHING`: the role is present afterwards, an existing row keeps its values, a missing role gets the given row, and every other row is kept |
| `Rates.Upsert` | app.py:109-114 | `ON CONFLICT DO UPDATE`: the role maps to the new salary and fixed cost, the keys are the old keys plus the role, and every other role is unchanged |
| `Rates.Seed` | app.py:29-34 | inserting the rows one by one "if absent" keeps every role already present and leaves every row's role present |
| `Rates.SeedKeepsExisting` | app.py:29-34 | seeding never overwrites a row that is already present |
| `Rates.SeedIsOverlay` | app.py:29-34 | inserting rows one by one "if absent" equals the table of the rows (first row of a role wins), overridden by the existing table |
| `Rates.SeedIdempotent` | app.py:29-34 | running the seeding a second time leaves the table as the first run left it |
| `Rates.DefaultsFormDefaultTable` | app.py:23-28 | the four default rows form the default table |
| `Rates.SeedDefaultsIsOverlay` | app.py:23-34 | seeding the defaults into any table gives the defaults overridden by the existing rows |
| `Rates.DefaultTableHasFourRows` | app.py:23-28 | the four default roles are distinct, so the default table has four rows |
| `Rates.SeedTwiceOnEmptyHasFourRows` | app.py:23-34 | on an empty table seeding yields exactly the default table, and seeding twice still yields four rows, not eight |
| `Rates.DefaultTableWellFormed` | app.py:23-28 | every default row has a non-empty role and a non-negative salary and fixed cost |
| `Rates.SeedPreservesWellFormed` | app.py:23-34 | seeding a table whose rows all pass the form's checks keeps that so |
| `Rates.DeletedDefaultRoleReturns` | app.py:29-34 | after any table loses a default role, the next seeding puts that role back with its default salary and fixed cost |
| `Rates.RemovePreservesWellFormed` | app.py:122-125 | deleting a role keeps every remaining row valid |
| `Rates.UpsertPreservesWellFormed` | app.py:318-325 | an upsert of a row that passed the form's checks keeps every row valid |
| `Rates.UpsertTwiceKeepsLatest` | app.py:107-120 | upserting one role twice leaves one row for it with the later values; the row count grows by one only when the role was new |
| `Rates.ConsultantTable.constructor` | app.py:15-21 | opening the consultants table gives its existing contents |
| `Rates.ConsultantTable.SeedDefaults` | app.py:29-34 | the insert-if-absent loop over the defaults leaves the table equal to `Seed` of the old table, that is, the defaults overlaid by the old rows; a table whose rows all passed the form stays so |
| `Rates.ConsultantTable.AddConsultant` | app.py:107-120 | the new table is the upsert of the old one; a form-checked row keeps a well-formed table well formed |
| `Rates.ConsultantTable.DeleteConsultant` | app.py:122-125 | the new table is the old one without that role; an absent role changes nothing; a well-formed table stays well formed |
| `Costing.EntryCost` | app.py:59-64 | an entry costs something only when its count is positive and its role has a rate row; with non-negative rates and duration it costs at least 0 |
| `Costing.TotalCost` | app.py:57-67 | the total is 0 when no entry has both a positive count and a rate row |
| `Costing.CostOverNothingCharged` | app.py:57-67 | the sum over any set of roles none of which is charged is 0 |
| `Costing.CostOverSplit` | app.py:58-65 | any entry can be taken out of the sum first, so the total does not depend on the order in which the entries are visited |
| `Costing.CostOverFrame` | app.py:58-65 | the sum over a set of roles depends only on those roles' counts and rate rows |
| `Costing.TotalCostSplit` | app.py:57-67 | the total is any one entry's cost plus the total of the remaining entries |
| `Costing.TotalCostAddEntry` | app.py:57-65 | the empty assignment costs 0, and adding a new role adds `(salary/220)*duration*count + fixed*count` when its count is positive and it has a rate row, and adds 0 otherwise |
| `Costing.SkippedEntryCostsNothing` | app.py:59-66 | an entry with a count of 0 or less, or with a role missing from the rate table, contributes nothing and raises no error: the total equals the total without it |
| `Costing.SingleRoleCost` | app.py:62-64 | a single known role with a non-negative count costs exactly `(salary/220)*duration*count + fixed*count` |
| `Costing.CostOverNonNegative` | app.py:57-65 | with non-negative salaries, fixed costs and duration, the partial sums over any set of roles are non-negative |
| `Costing.TotalCostNonNegative` | app.py:57-67 | with non-negative salaries, fixed costs and duration, the total cost is non-negative, whatever the counts |
| `Costing.WellFormedTotalCostNonNegative` | app.py:57-67 | a rate table whose rows all passed the role form gives a non-negative total cost for any non-negative duration and any counts |
| `Costing.TotalCostDependsOnAssignedRoles` | app.py:56-62 | the cost reads only the rate rows of the assigned roles: changing any other row changes no cost |
| `Costing.DeletingRateDropsRole` | app.py:60-66 | because costs are recomputed from the live table, deleting an assigned role's rate row is the same as dropping that role from the assignment; in the running program this holds for roles other than the four defaults, whose rows the next run re-seeds |
| `Costing.CalculateCosts` | app.py:55-67 | the accumulating loop returns exactly `TotalCost`, the sum of the entries' costs |
| `Costing.Evaluate` | app.py:186-187 | profit plus cost is the sales price; the margin is exactly 0 when the price is not positive |
| `Costing.MarginIsProfitShare` | app.py:187 | for a positive price, margin × price = 100 × profit |
| `Costing.MarginSign` | app.py:186-187 | for a positive price, the margin is negative exactly when cost exceeds price, and zero exactly when they are equal |
| `Costing.MarginAtMostHundred` | app.py:186-187 | for a positive price and a non-negative cost, the margin is at most 100, and equals 100 exactly when the cost is 0 |
| `Costing.EvaluateProject` | app.py:185-187 | the figures shown are the evaluation of the price against `TotalCost` of the assignment under the current rates |
| `Costing.StrategyConsultantExample` | app.py:55-67 | 30 days, two Strategy Consultants at the seeded rate cost 92000/11 (about 8363.64); at price 10000 the profit is 18000/11 and the margin 180/11 percent |
| `Costing.GhostRoleExample` | app.py:59-66 | a role absent from the default table costs 0 whatever its count, and price 0 gives margin 0 |
| `Projects.Replace` | app.py:84-94 | `UPDATE ... WHERE id`: the keys are unchanged, an existing id gets the new record, every other id keeps its record, and a missing id leaves the table unchanged |
| `Projects.ValidFigures` | app.py:232-239 | the figure checks of the project forms (the edit form here, the same bounds at app.py:172-173 and 180-181): duration at least 1, sales price at least 0, every headcount at least 0 |
| `Projects.Assess` | app.py:212-215 | a saved project's figures: the cost is `TotalCost` of its assignment under the given rates, profit plus cost is its price, and the margin is 0 when the price is not positive |
| `Projects.AssessNonNegative` | app.py:212-213 | against non-negative salaries and fixed costs, a project of non-negative duration shows a cost of at least 0 |
| `Projects.AssessedMarginAtMostHundred` | app.py:213-215 | a saved project whose figures passed the form, evaluated against a rate table without negative salaries or fixed costs, shows a non-negative cost and a margin of at most 100 percent |
| `Projects.ProjectTable.constructor` | app.py:36-44 | a new projects table is empty and its SERIAL sequence starts at 1 |
| `Projects.ProjectTable.Open` | app.py:36-44 | opening an existing projects table keeps its rows and its sequence, whose next value lies above every stored id |
| `Projects.ProjectTable.SaveProject` | app.py:69-80 | the record is stored under an id never issued before; every existing record stays; the table grows by exactly one row; rows that passed the form's checks stay so |
| `Projects.ProjectTable.UpdateProject` | app.py:82-95 | all four fields are replaced at an existing id; a missing id leaves the table unchanged; no id is issued |
| `Projects.ProjectTable.DeleteProject` | app.py:97-100 | the record at that id is removed, and a missing id changes nothing; the sequence is not rewound |
| `Projects.ProjectTable.AssessAll` | app.py:272-284 | every saved project is evaluated against the current rate table, and no other id is reported |
| `Projects.DeletedIdsAreNotReused` | app.py:38 | after deleting a project and saving another, the deleted id is still absent |

## Left out

- The Streamlit pages, forms, page routing and HTML markup (app.py:146-337) are presentation. The form's input checks appear only as the predicates named above.
- The non-empty project name demanded by the save button (app.py:198-201) is not modelled: no contract mentions names. The edit form (app.py:231, 241-242) has no such check, so an edit can store an empty name.
- The hard-coded login and the `logged_in` session flag (app.py:148-160) are placeholder authentication over UI state.
- The SQLAlchemy engine, connections, `commit` and `pd.read_sql_query` (app.py:9-10, 13, 50-53, 102-105) are database I/O. The tables are maps held in class fields, and `get_consultants` becomes the `rates` parameter of `CalculateCosts`.
- `export_to_excel`, `export_to_pdf` and the temporary files (app.py:127-143, 257-266, 290-300) are file I/O through pandas and FPDF.
- The JSON encoding of the assignment (app.py:78, 92, 212, 273) is a library round trip. The model stores the assignment map itself.
- Floating-point rounding and the `:.2f` display formatting are not modelled. With `real` the order in which the entries are summed does not matter, whereas with floats it can change the last bits.
- The width of the `INTEGER` duration column and of the SERIAL sequence is not modelled. Both are unbounded integers here.
- Database failures and concurrent last-write-wins are not modelled. The code has no logic for either.
- The order of the rows that `SELECT *` returns is not modelled. `AssessAll` returns a map keyed by id.
