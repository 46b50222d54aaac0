/** `AviationMLModels.predict`: everything after the random-forest outputs.
    The classifier and the regressor are opaque functions of the feature
    vector that may fail; what is modelled is the fixed feature vector, the
    placeholder answer when a model is missing, the threshold and clamp
    arithmetic on the predicted score, and the error answer. */
module Prediction {
  import opened Wrappers

  // ---------------------------------------------------------------------------
  // Python numeric conversions

  /** `int(x)` on a float: truncation toward zero. */
  function Trunc(x: real): (r: int)
    ensures x >= 0.0 ==> r as real <= x < r as real + 1.0
    ensures x < 0.0 ==> r as real - 1.0 < x <= r as real
  {
    if x >= 0.0 then x.Floor else -((-x).Floor)
  }

  lemma TruncMonotone(x: real, y: real)
    requires x <= y
    ensures Trunc(x) <= Trunc(y)
  {
  }

  /** `round(x, 2)`: the nearest multiple of 0.01, ties to the even multiple. */
  function Round2(x: real): (r: real)
    ensures -0.005 <= r - x <= 0.005
    ensures (r * 100.0).Floor as real == r * 100.0
    ensures 0.0 <= x ==> 0.0 <= r
    ensures x <= 100.0 ==> r <= 100.0
  {
    var y := x * 100.0;
    var f := y.Floor;
    var frac := y - f as real;
    var n := if frac < 0.5 then f
             else if frac > 0.5 then f + 1
             else if f % 2 == 0 then f else f + 1;
    n as real / 100.0
  }

  /** `np.max` of a non-empty vector. */
  function MaxOf(xs: seq<real>): (m: real)
    requires |xs| > 0
    ensures m in xs
    ensures forall i :: 0 <= i < |xs| ==> xs[i] <= m
  {
    if |xs| == 1 then xs[0]
    else
      var rest := MaxOf(xs[1..]);
      if xs[0] >= rest then xs[0] else rest
  }

  // ---------------------------------------------------------------------------
  // Features

  /** The form fields `predict` reads; a missing key is `None`. */
  datatype PredictInput = PredictInput(month: Option<int>, dayOfWeek: Option<int>, engines: Option<int>)

  const FeatureYear: int := 2024
  const DefaultMonth: int := 6
  const DefaultDayOfWeek: int := 3
  const DefaultEngines: int := 2
  const FeatureCount: nat := 8

  /** The model input: the fixed year, month, day of week and engine count
      (each defaulted when missing) and four zero placeholders for the encoded
      categorical features. */
  function Features(input: PredictInput): (f: seq<int>)
    ensures |f| == FeatureCount
    ensures f[0] == FeatureYear
    ensures f[1] == input.month.GetOr(DefaultMonth)
    ensures f[2] == input.dayOfWeek.GetOr(DefaultDayOfWeek)
    ensures f[3] == input.engines.GetOr(DefaultEngines)
    ensures forall i :: 4 <= i < FeatureCount ==> f[i] == 0
  {
    [FeatureYear, input.month.GetOr(DefaultMonth), input.dayOfWeek.GetOr(DefaultDayOfWeek),
     input.engines.GetOr(DefaultEngines), 0, 0, 0, 0]
  }

  // ---------------------------------------------------------------------------
  // Score post-processing

  const High := "High"
  const Medium := "Medium"
  const Low := "Low"
  const Unknown := "Unknown"

  /** Risk level from the predicted severity score. */
  function RiskLevel(score: real): (level: string)
    ensures level == High <==> score > 10.0
    ensures level == Medium <==> 5.0 < score <= 10.0
    ensures level == Low <==> score <= 5.0
  {
    if score > 10.0 then High else if score > 5.0 then Medium else Low
  }

  function LevelRank(level: string): nat
  {
    if level == High then 2 else if level == Medium then 1 else 0
  }

  /** A higher score never yields a lower risk level. */
  lemma RiskLevelMonotone(x: real, y: real)
    requires x <= y
    ensures LevelRank(RiskLevel(x)) <= LevelRank(RiskLevel(y))
  {
  }

  /** `min(100, int(score * 10))`: never above 100, never negative for a
      non-negative score; below 10 it is ten times the score truncated toward
      zero, so a negative score gives a negative or zero risk score. */
  function RiskScore(score: real): (r: int)
    ensures r <= 100
    ensures score >= 0.0 ==> r >= 0
    ensures score >= 10.0 ==> r == 100
    ensures 0.0 <= score < 10.0 ==> r as real <= score * 10.0 < r as real + 1.0
    ensures score < 0.0 ==> r <= 0 && r as real - 1.0 < score * 10.0 <= r as real
  {
    var t := Trunc(score * 10.0);
    if t < 100 then t else 100
  }

  /** `int(score * 5)`, the delay heuristic: five times the score truncated
      toward zero, for either sign. */
  function Delay(score: real): (r: int)
    ensures score >= 0.0 ==> r >= 0 && r as real <= score * 5.0 < r as real + 1.0
    ensures score < 0.0 ==> r <= 0 && r as real - 1.0 < score * 5.0 <= r as real
  {
    Trunc(score * 5.0)
  }

  /** Both derived figures are non-decreasing in the score. */
  lemma {:induction false} RiskScoreAndDelayMonotone(x: real, y: real)
    requires x <= y
    ensures RiskScore(x) <= RiskScore(y)
    ensures Delay(x) <= Delay(y)
  {
    TruncMonotone(x * 10.0, y * 10.0);
    TruncMonotone(x * 5.0, y * 5.0);
  }

  // ---------------------------------------------------------------------------
  // predict

  /** What the classifier returns for one feature vector: `predict(X)[0]`
      rendered with `str`, and `predict_proba(X)[0]`. */
  datatype ClassifierAnswer = ClassifierAnswer(predicted: string, probabilities: seq<real>)

  /** The trained models, as opaque functions that may raise. */
  type Classifier = seq<int> -> Result<ClassifierAnswer, string>
  type Regressor = seq<int> -> Result<real, string>

  /** The dictionary `predict` returns. `riskScore` and `delayPrediction` are
      absent from the placeholder answer, `error` from a successful one. */
  datatype PredictionOut = PredictionOut(
    severityClass: string,
    severityScore: real,
    riskLevel: string,
    riskScore: Option<int>,
    delayPrediction: Option<int>,
    confidence: real,
    error: Option<string>)

  const ModelsNotLoaded := "Models not loaded"

  /** The answer when either model is missing. */
  const NotLoaded := PredictionOut(Unknown, 0.0, Unknown, None, None, 0.0, Some(ModelsNotLoaded))

  /** The answer when anything inside the prediction raises. */
  function Failed(message: string): PredictionOut
  {
    PredictionOut("Error", 0.0, Unknown, Some(0), Some(0), 0.0, Some(message))
  }

  /** The message of the `ValueError` `np.max` raises on an empty vector. */
  const EmptyMaxMessage := "zero-size array to reduction operation maximum which has no identity"

  /** Answer for a successful classifier and regressor run. */
  function Scored(answer: ClassifierAnswer, score: real): PredictionOut
    requires |answer.probabilities| > 0
  {
    PredictionOut(answer.predicted, Round2(score), RiskLevel(score), Some(RiskScore(score)),
                  Some(Delay(score)), Round2(MaxOf(answer.probabilities) * 100.0), None)
  }

  /** `predict(input_data)`. */
  function Predict(classifier: Option<Classifier>, regressor: Option<Regressor>,
                   input: PredictInput): (r: PredictionOut)
    ensures classifier.None? || regressor.None? <==> r == NotLoaded
    ensures classifier.Some? && regressor.Some? ==>
              var x := Features(input);
              var answer := classifier.value(x);
              var score := regressor.value(x);
              (r.error.None? <==> answer.Success? && |answer.value.probabilities| > 0 && score.Success?)
    ensures r.error.Some? && r != NotLoaded ==> r == Failed(r.error.value)
    ensures r.error.None? ==>
              && r.riskLevel in {High, Medium, Low}
              && r.riskScore.Some? && r.riskScore.value <= 100
              && (r.riskLevel == High ==> r.riskScore == Some(100))
              && r.delayPrediction.Some?
    ensures r.error.None? ==>
              var probabilities := classifier.value(Features(input)).value.probabilities;
              (forall i :: 0 <= i < |probabilities| ==> 0.0 <= probabilities[i] <= 1.0) ==>
                0.0 <= r.confidence <= 100.0
    ensures r.error.None? ==>
              var x := Features(input);
              var answer := classifier.value(x).value;
              var score := regressor.value(x).value;
              && r.severityClass == answer.predicted
              && r.severityScore == Round2(score)
              && r.riskLevel == RiskLevel(score)
              && r.riskScore == Some(RiskScore(score))
              && r.delayPrediction == Some(Delay(score))
              && r.confidence == Round2(MaxOf(answer.probabilities) * 100.0)
  {
    if classifier.None? || regressor.None? then NotLoaded
    else
      var x := Features(input);
      match classifier.value(x)
      case Failure(message) => Failed(message)
      case Success(answer) =>
        if |answer.probabilities| == 0 then Failed(EmptyMaxMessage)
        else match regressor.value(x)
          case Failure(message) => Failed(message)
          case Success(score) => Scored(answer, score)
  }
}
