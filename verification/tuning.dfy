/**
 * `hyperparameter_tuning`: validate the list of named models and the list of
 * parameter grids, then run one grid search per model, recording a failed
 * model as None instead of stopping. The grid search itself (cross-validated
 * fitting on the training data) is an oracle `search` passed in as a
 * parameter: it either returns a fitted model with its best parameters or
 * raises an exception of some kind.
 */
module Tuning {
  import opened Frames

  datatype Option<T> = None | Some(value: T)

  /** A value a parameter grid can offer. */
  datatype ParamValue = IntParam(i: int) | RealParam(r: real) | TextParam(s: string) | BoolParam(b: bool) | NoneParam

  /** Parameter name to the candidates to try. */
  type Grid = map<string, seq<ParamValue>>

  /** Parameter name to the value chosen. */
  type Assignment = map<string, ParamValue>

  /** A model instance as far as the tuner sees it: whether it passes the
      `isinstance(model, BaseEstimator)` check, and an identity. */
  datatype Estimator = Estimator(isBaseEstimator: bool, id: nat)

  /** The `best_estimator_` a search produces. */
  datatype FittedModel = FittedModel(id: nat)

  /** The exception kinds the tuner tells apart: it catches the first three. */
  datatype ExceptionKind = ValueError | NotFittedError | TypeError | OtherException

  predicate Caught(k: ExceptionKind)
  {
    k.ValueError? || k.NotFittedError? || k.TypeError?
  }

  /** What one fitted grid search yields. */
  datatype SearchOutcome = Best(model: FittedModel, params: Assignment) | Raised(kind: ExceptionKind)

  /** One `(name, model)` entry of the models list. */
  datatype Entry = Entry(name: string, estimator: Estimator)

  /** The two entries written for one model name. */
  datatype Choice = Choice(model: Option<FittedModel>, params: Option<Assignment>)

  /** The returned pair `(best_models, best_params)`. */
  datatype Tuned = Tuned(bestModels: map<string, Option<FittedModel>>, bestParams: map<string, Option<Assignment>>)

  /** A model whose search raises an exception the tuner does not catch: it ends the whole call. */
  predicate Aborts(e: Entry, grid: Grid, search: (Estimator, Grid) -> SearchOutcome)
  {
    e.estimator.isBaseEstimator && search(e.estimator, grid).Raised? && !Caught(search(e.estimator, grid).kind)
  }

  /** The body of the `try` block for one model, with its `except` clause. */
  function TuneOne(e: Entry, grid: Grid, search: (Estimator, Grid) -> SearchOutcome): (r: Result<Choice>)
    ensures r.Failure? <==> Aborts(e, grid, search)
    ensures r.Failure? ==> r.error == UncaughtException(e.name)
    // an object that is not an estimator is recorded as None without being searched
    ensures !e.estimator.isBaseEstimator ==> r == Success(Choice(None, None))
    // a search that raises a caught exception is recorded as None
    ensures e.estimator.isBaseEstimator && search(e.estimator, grid).Raised? && Caught(search(e.estimator, grid).kind)
            ==> r == Success(Choice(None, None))
    // a search that completes is recorded with its model and parameters
    ensures e.estimator.isBaseEstimator && search(e.estimator, grid).Best? ==>
      r == Success(Choice(Some(search(e.estimator, grid).model), Some(search(e.estimator, grid).params)))
    // both maps get None together
    ensures r.Success? ==> (r.value.model.None? <==> r.value.params.None?)
  {
    if !e.estimator.isBaseEstimator then Success(Choice(None, None))
    else
      match search(e.estimator, grid)
      case Best(m, p) => Success(Choice(Some(m), Some(p)))
      case Raised(k) => if Caught(k) then Success(Choice(None, None)) else Failure(UncaughtException(e.name))
  }

  /** The names of the first `k` entries. */
  function NamesBefore(models: seq<Entry>, k: nat): set<string>
    requires k <= |models|
  {
    set i | 0 <= i < k :: models[i].name
  }

  /** The names of all the entries. */
  function ModelNames(models: seq<Entry>): set<string>
  {
    NamesBefore(models, |models|)
  }

  /** Among the first `k` entries, entry `i` is the last one carrying its name. */
  predicate LastBefore(models: seq<Entry>, i: nat, k: nat)
    requires i < k <= |models|
  {
    forall j :: i < j < k ==> models[j].name != models[i].name
  }

  /** Entry `i` is the last one carrying its name. */
  predicate LastWithName(models: seq<Entry>, i: nat)
    requires i < |models|
  {
    LastBefore(models, i, |models|)
  }

  lemma NamesBeforeStep(models: seq<Entry>, k: nat)
    requires k < |models|
    ensures NamesBefore(models, k + 1) == NamesBefore(models, k) + {models[k].name}
  {
  }

  /** The choice entry `i` leaves in both maps. */
  predicate Holds(r: Tuned, e: Entry, grid: Grid, search: (Estimator, Grid) -> SearchOutcome)
    requires !Aborts(e, grid, search)
  {
    var ch := TuneOne(e, grid, search).value;
    && e.name in r.bestModels && r.bestModels[e.name] == ch.model
    && e.name in r.bestParams && r.bestParams[e.name] == ch.params
  }

  /** Entry `k` writes its choice on top of what the entries before it left. */
  function Write(acc: Tuned, e: Entry, ch: Choice): (r: Tuned)
    ensures r.bestModels.Keys == acc.bestModels.Keys + {e.name}
    ensures r.bestParams.Keys == acc.bestParams.Keys + {e.name}
    ensures forall n :: n != e.name && n in acc.bestModels ==> r.bestModels[n] == acc.bestModels[n]
    ensures forall n :: n != e.name && n in acc.bestParams ==> r.bestParams[n] == acc.bestParams[n]
  {
    Tuned(acc.bestModels[e.name := ch.model], acc.bestParams[e.name := ch.params])
  }

  /** The `for` loop over `zip(models, param_grids)`, run over its first `k`
      entries: each entry overwrites whatever an earlier entry of the same
      name wrote. */
  function TuneBefore(models: seq<Entry>, grids: seq<Grid>, k: nat, search: (Estimator, Grid) -> SearchOutcome): (r: Result<Tuned>)
    requires |models| == |grids| && k <= |models|
    ensures r.Success? <==> forall i :: 0 <= i < k ==> !Aborts(models[i], grids[i], search)
    ensures r.Failure? ==>
      exists i :: 0 <= i < k && Aborts(models[i], grids[i], search)
                  && (forall j :: 0 <= j < i ==> !Aborts(models[j], grids[j], search))
                  && r.error == UncaughtException(models[i].name)
    ensures r.Success? ==>
      r.value.bestModels.Keys == NamesBefore(models, k) && r.value.bestParams.Keys == NamesBefore(models, k)
    ensures r.Success? ==>
      forall i :: 0 <= i < k && LastBefore(models, i, k) ==> Holds(r.value, models[i], grids[i], search)
    decreases k
  {
    if k == 0 then Success(Tuned(map[], map[]))
    else
      var prev := TuneBefore(models, grids, k - 1, search);
      if prev.Failure? then prev
      else
        match TuneOne(models[k - 1], grids[k - 1], search)
        case Failure(e) => Failure(e)
        case Success(ch) =>
          var r := Write(prev.value, models[k - 1], ch);
          NamesBeforeStep(models, k - 1);
          LastWinsStep(models, grids, k, search, prev.value, r);
          Success(r)
  }

  /** The write of entry `k - 1`, on top of the maps of the entries before it,
      leaves each name with the choice of the last entry carrying it. */
  lemma LastWinsStep(models: seq<Entry>, grids: seq<Grid>, k: nat, search: (Estimator, Grid) -> SearchOutcome, acc: Tuned, r: Tuned)
    requires |models| == |grids| && 0 < k <= |models|
    requires forall i :: 0 <= i < k ==> !Aborts(models[i], grids[i], search)
    requires forall i :: 0 <= i < k - 1 && LastBefore(models, i, k - 1) ==> Holds(acc, models[i], grids[i], search)
    requires r == Write(acc, models[k - 1], TuneOne(models[k - 1], grids[k - 1], search).value)
    ensures forall i :: 0 <= i < k && LastBefore(models, i, k) ==> Holds(r, models[i], grids[i], search)
  {
    forall i | 0 <= i < k && LastBefore(models, i, k) ensures Holds(r, models[i], grids[i], search) {
      if i < k - 1 {
        assert models[k - 1].name != models[i].name;
        assert LastBefore(models, i, k - 1);
      }
    }
  }

  function HyperparameterTuning(models: seq<Entry>, grids: seq<Grid>, search: (Estimator, Grid) -> SearchOutcome): (r: Result<Tuned>)
    // both lists are checked before any model is searched
    ensures |models| == 0 || |grids| == 0 ==> r == Failure(EmptyTuningInput)
    ensures |models| > 0 && |grids| > 0 && |models| != |grids| ==> r == Failure(LengthMismatch)
    // after validation only an uncaught exception of a search stops the call
    ensures r.Success? <==>
      |models| > 0 && |models| == |grids| && forall i :: 0 <= i < |models| ==> !Aborts(models[i], grids[i], search)
    ensures r.Failure? && |models| > 0 && |models| == |grids| ==>
      exists i :: 0 <= i < |models| && Aborts(models[i], grids[i], search)
                  && (forall j :: 0 <= j < i ==> !Aborts(models[j], grids[j], search))
                  && r.error == UncaughtException(models[i].name)
    // both maps have exactly the model names as keys
    ensures r.Success? ==>
      r.value.bestModels.Keys == ModelNames(models) && r.value.bestParams.Keys == ModelNames(models)
    // each name holds what the last entry of that name produced
    ensures r.Success? ==>
      forall i :: 0 <= i < |models| && LastWithName(models, i) ==> Holds(r.value, models[i], grids[i], search)
  {
    if |models| == 0 || |grids| == 0 then Failure(EmptyTuningInput)
    else if |models| != |grids| then Failure(LengthMismatch)
    else TuneBefore(models, grids, |models|, search)
  }

  /** A model that is not an estimator, or whose search raises a caught
      exception, is None in both maps, and another model listed under a
      different name is still searched and recorded. */
  lemma FailureIsolated(models: seq<Entry>, grids: seq<Grid>, search: (Estimator, Grid) -> SearchOutcome, bad: nat, good: nat)
    requires |models| == |grids| && bad < |models| && good < |models|
    requires forall k :: 0 <= k < |models| ==> !Aborts(models[k], grids[k], search)
    requires LastWithName(models, bad) && LastWithName(models, good)
    requires !models[bad].estimator.isBaseEstimator
             || (search(models[bad].estimator, grids[bad]).Raised? && Caught(search(models[bad].estimator, grids[bad]).kind))
    requires models[good].estimator.isBaseEstimator && search(models[good].estimator, grids[good]).Best?
    ensures var r := HyperparameterTuning(models, grids, search).value;
      && r.bestModels[models[bad].name] == None && r.bestParams[models[bad].name] == None
      && r.bestModels[models[good].name] == Some(search(models[good].estimator, grids[good]).model)
      && r.bestParams[models[good].name] == Some(search(models[good].estimator, grids[good]).params)
  {
    var r := HyperparameterTuning(models, grids, search).value;
    assert Holds(r, models[bad], grids[bad], search);
    assert Holds(r, models[good], grids[good], search);
  }

  /** With two entries of the same name, the second one's result is what is returned. */
  lemma LaterDuplicateWins(a: Entry, b: Entry, ga: Grid, gb: Grid, search: (Estimator, Grid) -> SearchOutcome)
    requires a.name == b.name
    requires HyperparameterTuning([a, b], [ga, gb], search).Success?
    ensures var r := HyperparameterTuning([a, b], [ga, gb], search).value;
      && r.bestModels.Keys == {a.name}
      && r.bestModels[a.name] == TuneOne(b, gb, search).value.model
      && r.bestParams[a.name] == TuneOne(b, gb, search).value.params
  {
    assert LastWithName([a, b], 1);
    assert ModelNames([a, b]) == {a.name} by {
      assert [a, b][0].name == a.name && [a, b][1].name == a.name;
    }
  }

  /** `best_params_` picks one candidate for every parameter of the grid, and nothing else. */
  predicate Assigns(p: Assignment, grid: Grid)
  {
    p.Keys == grid.Keys && forall k :: k in grid ==> p[k] in grid[k]
  }

  /** A search that behaves like a grid search: what it reports as best is a point of the grid. */
  ghost predicate SoundSearch(search: (Estimator, Grid) -> SearchOutcome)
  {
    forall e, grid :: search(e, grid).Best? ==> Assigns(search(e, grid).params, grid)
  }

  /** With a sound search, every recorded parameter set assigns one candidate
      to each key of its model's grid. */
  lemma RecordedParamsAssignGrid(models: seq<Entry>, grids: seq<Grid>, search: (Estimator, Grid) -> SearchOutcome, i: nat)
    requires SoundSearch(search)
    requires |models| == |grids| && i < |models| && LastWithName(models, i)
    requires forall k :: 0 <= k < |models| ==> !Aborts(models[k], grids[k], search)
    ensures var p := HyperparameterTuning(models, grids, search).value.bestParams[models[i].name];
      p.Some? ==> Assigns(p.value, grids[i])
  {
    var r := HyperparameterTuning(models, grids, search).value;
    assert Holds(r, models[i], grids[i], search);
    var s := search(models[i].estimator, grids[i]);
    if models[i].estimator.isBaseEstimator && s.Best? {
      assert Assigns(s.params, grids[i]);
    }
  }

  /** A model searched over an empty grid is recorded with the empty parameter set. */
  lemma EmptyGridEmptyAssignment(models: seq<Entry>, grids: seq<Grid>, search: (Estimator, Grid) -> SearchOutcome, i: nat)
    requires SoundSearch(search)
    requires |models| == |grids| && i < |models| && LastWithName(models, i)
    requires forall k :: 0 <= k < |models| ==> !Aborts(models[k], grids[k], search)
    requires grids[i] == map[]
    requires models[i].estimator.isBaseEstimator && search(models[i].estimator, map[]).Best?
    ensures HyperparameterTuning(models, grids, search).value.bestParams[models[i].name] == Some(map[])
  {
    RecordedParamsAssignGrid(models, grids, search, i);
    var p := HyperparameterTuning(models, grids, search).value.bestParams[models[i].name];
    assert p.value.Keys == {};
  }
}
