/** The solver selection of the script: which fitted models contribute an
    entry to the parallel lists `y_pred`, `y_prob` and `model_titles`, and when
    the report call finds the held-out labels `y_test` bound. The train/test
    split, the fitting of each model and the embedding model are supplied
    from outside as opaque functions. */
module Harness {
  import opened Wrappers
  import opened FeatureEncoder
  import opened Cleaning

  const LogisticRegression: string := "Logistic Regression"
  const RandomForest: string := "Random Forest"
  const Embeddings: string := "Embeddings"
  const All: string := "All"

  /** A fitted model: its predicted labels and its predicted probability of
      the positive class (`predict_proba(...)[:, 1]`) on a feature matrix. */
  datatype Classifier = Classifier(predict: Matrix -> seq<int>, probability: Matrix -> seq<real>)

  /** The four results of `train_test_split`. */
  datatype Partition = Partition(xTrain: Matrix, xTest: Matrix, yTrain: seq<int>, yTest: seq<int>)

  /** The library code the script calls: the randomised split, the fitting
      of the two classifiers with their fixed settings, and the embedding
      model, which reports one accuracy figure for the cleaned table, the
      vocabulary sizes and the "paid" labels. */
  datatype Learners = Learners(
    split: (Matrix, seq<int>) -> Partition,
    fitLogistic: (Matrix, seq<int>) -> Classifier,
    fitForest: (Matrix, seq<int>) -> Classifier,
    embed: (Table, seq<nat>, seq<int>) -> real)

  /** Why a run stops before reporting: a dummy column that does not exist,
      or `y_test` still unbound when the report is called, by which time the
      embedding model may already have printed its accuracy. */
  datatype Failure = MissingDummy(column: string) | UnboundTestLabels(printed: Option<real>)

  datatype Outcome =
    | Reported(yTest: seq<int>, yPred: seq<seq<int>>, yProb: seq<seq<real>>, titles: seq<string>,
               accuracy: Option<real>)
    | Failed(failure: Failure)

  /** The solvers for which the feature matrix is built and split. */
  predicate FitsClassifiers(solver: string)
  {
    solver == LogisticRegression || solver == RandomForest || solver == All
  }

  predicate RunsEmbeddings(solver: string)
  {
    solver == Embeddings || solver == All
  }

  /** The accuracy the embedding model reports, for the solvers that run it. */
  function EmbeddingAccuracy(solver: string, clean: Table, cats: seq<string>, learners: Learners): Option<real>
    requires RunsEmbeddings(solver) ==>
      (forall j :: 0 <= j < |cats| ==> TextColumn(clean, cats[j])) && EmbeddingLabels(clean).Some?
  {
    if RunsEmbeddings(solver)
    then Some(learners.embed(clean, VocabularySizes(clean, cats), EmbeddingLabels(clean).value))
    else None
  }

  /** The fitted model that the list entry titled `title` comes from. */
  function ModelFor(learners: Learners, title: string, p: Partition): Classifier
  {
    if title == LogisticRegression then learners.fitLogistic(p.xTrain, p.yTrain)
    else learners.fitForest(p.xTrain, p.yTrain)
  }

  /** The body of the script from the cleaned table on. */
  method Run(solver: string, clean: Table, cats: seq<string>, ords: seq<string>, learners: Learners)
    returns (out: Outcome)
    requires FitsClassifiers(solver) ==> Encodable(clean, cats, ords)
    requires RunsEmbeddings(solver) ==> forall j :: 0 <= j < |cats| ==> TextColumn(clean, cats[j])
    // when a run fails, and with what
    ensures FitsClassifiers(solver) && ClassifierLabels(clean).None? ==>
      out == Failed(MissingDummy("defaulted"))
    ensures ((FitsClassifiers(solver) ==> ClassifierLabels(clean).Some?) && RunsEmbeddings(solver) &&
             EmbeddingLabels(clean).None?) ==> out == Failed(MissingDummy("paid"))
    ensures !FitsClassifiers(solver) && (RunsEmbeddings(solver) ==> EmbeddingLabels(clean).Some?) ==>
      out == Failed(UnboundTestLabels(EmbeddingAccuracy(solver, clean, cats, learners)))
    ensures out.Reported? <==>
      FitsClassifiers(solver) && ClassifierLabels(clean).Some? &&
      (RunsEmbeddings(solver) ==> EmbeddingLabels(clean).Some?)
    // which entries the lists receive, in which order
    ensures out.Reported? ==> |out.yPred| == |out.yProb| == |out.titles|
    ensures out.Reported? && solver == LogisticRegression ==> out.titles == [LogisticRegression]
    ensures out.Reported? && solver == RandomForest ==> out.titles == [RandomForest]
    ensures out.Reported? && solver == All ==> out.titles == [LogisticRegression, RandomForest]
    // every entry comes from a model fitted on the one split of the feature matrix
    ensures out.Reported? ==>
      var p := learners.split(FeatureMatrix(clean, cats, ords), ClassifierLabels(clean).value);
      out.yTest == p.yTest &&
      forall k :: 0 <= k < |out.titles| ==>
        out.yPred[k] == ModelFor(learners, out.titles[k], p).predict(p.xTest) &&
        out.yProb[k] == ModelFor(learners, out.titles[k], p).probability(p.xTest)
    ensures out.Reported? ==> out.accuracy == EmbeddingAccuracy(solver, clean, cats, learners)
  {
    var yPred: seq<seq<int>>, yProb: seq<seq<real>>, titles: seq<string> := [], [], [];
    var yTest: Option<seq<int>> := None;
    if solver == LogisticRegression || solver == RandomForest || solver == All {
      var x := DataframeToNumpy(clean, cats, ords);
      var y := ClassifierLabels(clean);
      if y.None? {
        return Failed(MissingDummy("defaulted"));
      }
      var p := learners.split(x, y.value);
      yTest := Some(p.yTest);
      if solver == LogisticRegression || solver == All {
        var model := learners.fitLogistic(p.xTrain, p.yTrain);
        yPred := yPred + [model.predict(p.xTest)];
        yProb := yProb + [model.probability(p.xTest)];
        titles := titles + [LogisticRegression];
      }
      if solver == RandomForest || solver == All {
        var model := learners.fitForest(p.xTrain, p.yTrain);
        yPred := yPred + [model.predict(p.xTest)];
        yProb := yProb + [model.probability(p.xTest)];
        titles := titles + [RandomForest];
      }
    }
    var accuracy: Option<real> := None;
    if solver == Embeddings || solver == All {
      var sizes := VocabularySizes(clean, cats);
      var labels := EmbeddingLabels(clean);
      if labels.None? {
        return Failed(MissingDummy("paid"));
      }
      accuracy := Some(learners.embed(clean, sizes, labels.value));
    }
    if yTest.None? {
      return Failed(UnboundTestLabels(accuracy));
    }
    return Reported(yTest.value, yPred, yProb, titles, accuracy);
  }
}
