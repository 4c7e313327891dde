# Assembly-line balancing heuristic, modelled in Dafny

This project models the optimisation engine of `main.py`. The engine assigns tasks `0..n-1` to `m`
machines under a 0/1 precedence matrix. A solution lists, for each machine, its tasks in order. Its
cost (the cycle time) is the largest total task cost on any one machine. The engine:

- deals task counts round-robin over the machines and shuffles them (`distribuir_tarefas_aleatoriamente`);
- builds one random topological sequence of the tasks on a working copy of the matrix (`gerar_sequencia`);
- cuts that sequence into consecutive per-machine chunks to get the initial solution (`cria_solucao_inicial`);
- checks precedence inside each machine (`verifica_precedencia`);
- computes the cycle time (`calcular_fo`);
- draws neighbours by exchanging one task between two machines, taking back exchanges that fail the
  check (`gerar_vizinho`);
- runs a strict-improvement descent with a stall counter (`heuristica_descida_randomica`).

Modules, one file each:

- `Types` (`types.dfy`) holds the shared vocabulary: matrix, solution, failures, partitions, permutations.
- `Objective` (`objective.dfy`) models `calcular_fo`.
- `Feasibility` (`feasibility.dfy`) models `verifica_precedencia`.
- `Distribution` (`distribution.dfy`) models `distribuir_tarefas_aleatoriamente`.
- `Sequencing` (`sequencing.dfy`) models `gerar_sequencia`.
- `Construction` (`construction.dfy`) models `cria_solucao_inicial`.
- `Neighbourhood` (`neighbourhood.dfy`) models `gerar_vizinho`.
- `Descent` (`descent.dfy`) models `heuristica_descida_randomica`.
- `Pipeline` (`pipeline.dfy`) models one round of the sweep in `main`: build a solution, then refine it.

The model follows the code's own shape:

- The two pure routines (`calcular_fo`, `verifica_precedencia`) are recursive functions. The
  precedence check is written as three nested scans that stop at the first violation, like the
  code's loops.
- The count distribution increments an `array<nat>` and shuffles it in place.
- The sequence generator keeps the code's working copy as an `array2<int>`. It clears the chosen
  row to 0 and sets the chosen column to -1, as the code does.
- The initial solution pops tasks off the front of the sequence in nested loops.
- The neighbour generator works on an `array<seq<nat>>` copy of the solution. It updates that copy
  in place with remove-and-append, and takes failed exchanges back the same way.
- The descent is a `while` loop over the current solution, the best value and the stall counter.

Every random step is an explicit parameter, and each property is proved for every value it can take:

- `swapWith(i) % (i + 1)` is the partner of position `i` in the Fisher–Yates shuffle of the counts.
- `choose(step) % |candidates|` is the task that the shuffle plus `pop(0)` picks at each step of
  the sequence generator.
- A `Pick` holds the raw numbers behind one neighbour attempt. The machine pair is drawn without
  replacement, and each task is picked by an index reduced onto its machine.

Each Python exception that the code can raise on inputs it accepts becomes an `Err` result:

- `DivisionByZero`: `i % 0`, when there are tasks but no machines.
- `PopFromEmptyList`: `pop(0)` on an empty candidate list, which happens when the precedence
  relation has no topological order.
- `SampleLargerThanPopulation`: drawing two distinct machines from fewer than two. With one
  machine numpy reports that the sample is larger than the population; with none it rejects the
  empty population first. Both are a `ValueError` at main.py:258, and the model does not tell them
  apart.

Points where the code does something a reader might not expect:

- The code has no guard against a cyclic precedence relation (or a task listed as its own
  predecessor). `gerar_sequencia` then reaches a step with no ready task, and `pop(0)` at
  main.py:180 fails. The model proves that this failure happens exactly when no topological order
  exists.
- The comment at main.py:283 says the failed swap is reverted. The code removes each task and
  appends it again (main.py:284-287). This restores which tasks each machine holds, but moves them
  to the end of their lists, so the order is not restored. `Neighbourhood.ExchangeBackReorders`
  shows this on a concrete machine, and `Feasibility.FeasibilityDependsOnOrder` shows that the order
  matters to the check. A later draw therefore starts from a copy whose order may differ from the
  input's. The model keeps this: it promises only that a returned neighbour is a cross-swap of the
  input in terms of which tasks each machine holds.
- The docstring of `distribuir_tarefas_aleatoriamente` promises at least one task per machine.
  `Distribution.EveryMachineBusyIff` proves that this holds exactly when there are at least as many
  tasks as machines.
- With fewer than two machines, the descent does not stop quietly. Its first neighbour draw raises,
  and the model returns `SampleLargerThanPopulation`.

## Model

| member | source | states |
|---|---|---|
| Objective.CycleTime | main.py:65-89 | the cycle time is a natural number that bounds every machine's load, and if positive it is some machine's load; so it is the largest load, or 0 when there are no machines or no positive load |
| Objective.LoadDependsOnContents | main.py:82-83 | a machine's total cost depends only on which tasks it holds, not on their order |
| Objective.CycleTimeDependsOnContents | main.py:80-86 | two solutions whose machines hold the same tasks have the same cycle time |
| Objective.LoadRemove | main.py:82-83 | taking one task off a machine lowers its load by exactly that task's cost |
| Feasibility.CheckPrecedence | main.py:295-316 | the check returns true exactly when no machine has a task at a later position that is a required predecessor of a task at an earlier position |
| Feasibility.CheckMachines | main.py:308-316 | the scan from machine k on succeeds exactly when every machine from k on is feasible |
| Feasibility.CheckPairs | main.py:309-315 | the scan from position i on succeeds exactly when no pair of positions i' < j with i' ≥ i violates a precedence |
| Feasibility.CheckLater | main.py:310-315 | the inner scan succeeds exactly when no position from j on holds a predecessor of the task at position i |
| Feasibility.ShortMachinesPass | main.py:310-315 | machines holding at most one task always pass the check |
| Feasibility.FeasibilityDependsOnOrder | main.py:307-316 | with task 0 required before task 1, the machine [0, 1] passes and [1, 0] fails: the check depends on order |
| Feasibility.OrderedFlattenFeasible | main.py:218-226 | cutting a precedence-ordered sequence into consecutive machines gives a solution that passes the check |
| Distribution.ShareStep | main.py:107-109 | one more round-robin deal raises exactly machine i % m by one |
| Distribution.Shuffle | main.py:111-112 | the in-place shuffle keeps the same multiset of counts |
| Distribution.DistributeCounts | main.py:91-115 | fails with a division by zero exactly when there are tasks and no machines; otherwise returns m counts that sum to n and are the round-robin counts in some order, each n / m or n / m + 1 |
| Distribution.EveryMachineBusyIff | main.py:93-115 | every machine receives at least one task exactly when n ≥ m |
| Sequencing.UnplacedColumnSum | main.py:174 | an unplaced task's column in the working copy sums to a non-negative value, which is 0 exactly when no unplaced task precedes it |
| Sequencing.PlacedColumnSum | main.py:186-187 | a placed task's column sums to at most -1, so it never looks ready again |
| Sequencing.ColumnSumZeroIffReady | main.py:174-187 | a column of the working copy sums to 0 exactly when its task is unplaced and has no unplaced predecessor |
| Sequencing.OrderGivesReadyTask | main.py:172-180 | if a topological order exists, some task is ready whatever has been placed so far |
| Sequencing.NoReadyTaskMeansNoOrder | main.py:174-180 | an empty candidate list means the precedence relation has no topological order |
| Sequencing.TopologicalRespectsEdges | main.py:152-189 | in a topological order a required predecessor differs from its successor and comes before it |
| Sequencing.ReadyColumns | main.py:174 | the candidates are exactly the tasks whose column sums to 0, in increasing order |
| Sequencing.ClearRow | main.py:186 | the chosen task's row becomes 0 and nothing else changes |
| Sequencing.RetireColumn | main.py:187 | the chosen task's column becomes -1 and nothing else changes |
| Sequencing.MarkPlaced | main.py:186-187 | after placing a ready task, the working copy still tracks the matrix for the enlarged set of placed tasks |
| Sequencing.PlaceReady | main.py:180-183 | appending a ready task keeps the placed prefix distinct and precedence-ordered |
| Sequencing.GenerateSequence | main.py:152-189 | a successful run returns a permutation of 0..n-1 with no task preceded by a later one; a failing run fails in pop(0) and only when no topological order exists |
| Construction.CutIntoMachines | main.py:218-226 | when the counts add up to the sequence length, the machines get exactly their counts and their concatenation is the sequence |
| Construction.BuildInitialSolution | main.py:193-230 | fails with a division by zero when there are tasks but no machines, otherwise fails exactly when no topological order exists; a built solution has m machines of n / m or n / m + 1 tasks, concatenates to a topological order, is a partition of the tasks, passes the check, and its reported value is its cycle time |
| Neighbourhood.MachinePair | main.py:258 | the two machines drawn are distinct and in range |
| Neighbourhood.EveryPairDrawable | main.py:258 | every ordered pair of distinct machines can be drawn |
| Neighbourhood.IndexOf | main.py:271-272 | the position found holds the task and no earlier position does |
| Neighbourhood.Remove | main.py:271-272 | list.remove drops one occurrence of the task and keeps the rest |
| Neighbourhood.Exchange | main.py:270-276 | one side of an exchange keeps the machine's length, trades the leaving task for the arriving one, and puts the arriving task last |
| Neighbourhood.ExchangeBackKeepsContents | main.py:283-287 | taking an exchange back restores which tasks the machine holds |
| Neighbourhood.ExchangeBackReorders | main.py:283-287 | taking an exchange back on [0, 1] gives [1, 0]: the order is not restored |
| Neighbourhood.CrossSwap | main.py:270-276 | the exchange changes only the two chosen machines |
| Neighbourhood.CrossSwapSwaps | main.py:270-276 | the exchange trades exactly one task of each chosen machine and leaves the other machines' contents alone |
| Neighbourhood.CrossSwapWellFormed | main.py:270-276 | the exchange keeps every task index in range |
| Neighbourhood.CrossSwapBack | main.py:283-287 | exchanging back restores which tasks every machine holds |
| Neighbourhood.SwapsTasksUpToContents | main.py:256-287 | after earlier failed attempts, an exchange on the working copy is still an exchange relative to the input solution |
| Neighbourhood.CrossSwapKeepsTasks | main.py:270-276 | a cross-swap keeps every task exactly once |
| Neighbourhood.GenerateNeighbour | main.py:232-293 | fails exactly when an attempt is made with fewer than two machines; otherwise returns the input unchanged or a cross-swap of it that passes the check, with the same machine count and the same tasks |
| Descent.RandomDescent | main.py:318-364 | fails exactly when the loop is entered with fewer than two machines; otherwise returns a solution with the same machines and tasks, its own cycle time, no larger than the initial one, and either the initial solution or a strictly better one that passes the check |
| Pipeline.BuildAndRefine | main.py:370-372 | fails exactly when there are tasks but no machines, when no topological order exists, or when the descent is entered with fewer than two machines; otherwise both solutions are partitions that pass the check and the refined cycle time is no larger than the initial one |

## Left out

- `read_file` (main.py:8-63) is not modelled. It reads the instance file, which is I/O and text parsing. The model takes the matrix and the costs as values, and assumes the matrix is square and 0/1 with one row per task and at least one cost per task.
- `imprimir_resultados` (main.py:117-150) is not modelled. It only prints to the console.
- `main` (main.py:366-378) is modelled only as one round of its loop (`Pipeline.BuildAndRefine`). The wall-clock timing and the fixed sweep over 6 to 10 machines are left out.
- The random number generators are not modelled. Their uniformity and seeding cannot be stated here. Each draw is a parameter, and the properties hold for every choice.
- NumPy details such as dtypes, `np.copy` and `np.sum` are left out. Integers are unbounded; the costs are small integer task times, so no overflow is modelled.
- Construction.BuildInitialSolution assumes the number of tasks passed to the sequence generator is the matrix size, as its only caller does.
- Neighbourhood.GenerateNeighbour does not model aliasing between the returned lists and the caller's. The model works on values, and the copy it edits is a fresh array.
- Descent.RandomDescent does not state that the last `stallLimit` neighbours failed to improve, because that would need a trace of all draws. The loop's termination is proved (`decreases` on the best value, then on the stall count).
