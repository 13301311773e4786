/** `evaluate_design`: describe the room, embed the description, and score the
    design embedding against the customer's request embedding. The embedding
    model is a function parameter; an empty embedding stands for its failure. */
module Evaluate {
  import opened Common
  import opened Furniture
  import opened Describe
  import opened Similarity

  /** The description reported when the design embedding could not be obtained. */
  const FailedText: string := "Evaluation failed."

  /** The result record: a score and the description it was computed from. */
  datatype Evaluation = Evaluation(score: real, description: string)

  /** The failure record is never mistaken for a real description: every description begins
      with 'T' ("The room ..." or "This design ..."), the failure text with 'E'. */
  lemma DescriptionNeverFailed(ps: seq<Placement>)
    ensures DescribeDesign(ps) != FailedText
  {
    var d := DescribeDesign(ps);
    if |ps| == 0 {
      assert d[0] == 'T';
    } else {
      assert d[..|Lead|] == Lead;
      assert d[0] == Lead[0] == 'T';
    }
    assert FailedText[0] == 'E';
  }

  /** `evaluate_design`: the failure record exactly when the embedding of the description is
      empty; otherwise the similarity score of the request against that embedding together with
      the description, or the error the score raises. */
  function EvaluateDesign(embed: string -> seq<real>, root: real -> real, request: seq<real>,
                          placed: seq<Placement>): (r: Result<Evaluation, ScoreError>)
    ensures r == Ok(Evaluation(0.0, FailedText)) <==> |embed(DescribeDesign(placed))| == 0
    ensures r.Err? <==> |embed(DescribeDesign(placed))| > 0 && Score(request, embed(DescribeDesign(placed)), root).Err?
    ensures r.Ok? && |embed(DescribeDesign(placed))| > 0 ==>
      r.value.description == DescribeDesign(placed)
      && Score(request, embed(DescribeDesign(placed)), root) == Ok(r.value.score)
  {
    var desc := DescribeDesign(placed);
    var design := embed(desc);
    if |design| == 0 then Ok(Evaluation(0.0, FailedText))
    else
      DescriptionNeverFailed(placed);
      match Score(request, design, root)
      case Err(e) => Err(e)
      case Ok(s) => Ok(Evaluation(s, desc))
  }

  /** Evaluating an empty room embeds the fixed empty-room sentence; when that embedding is
      available, the record carries that sentence. */
  lemma EmptyRoomEvaluation(embed: string -> seq<real>, root: real -> real, request: seq<real>)
    requires |embed(EmptyRoomText)| > 0
    ensures EvaluateDesign(embed, root, request, []).Ok? ==>
      EvaluateDesign(embed, root, request, []).value.description == EmptyRoomText
  {
  }

  /** A design embedding whose components are all zero scores 0 rather than dividing by zero. */
  lemma ZeroDesignVectorScoresZero(embed: string -> seq<real>, root: real -> real, request: seq<real>,
                                   placed: seq<Placement>)
    requires |embed(DescribeDesign(placed))| > 0
    requires RootAt(root, SumSquares(embed(DescribeDesign(placed))))
    requires forall i :: 0 <= i < |embed(DescribeDesign(placed))| ==> embed(DescribeDesign(placed))[i] == 0.0
    ensures EvaluateDesign(embed, root, request, placed) == Ok(Evaluation(0.0, DescribeDesign(placed)))
  {
    ZeroVectorScoresZero(request, embed(DescribeDesign(placed)), root);
  }

  /** Whenever the evaluation succeeds and the square root is exact on both vectors, the score
      lies on the 0 to 5 scale. */
  lemma EvaluationInRange(embed: string -> seq<real>, root: real -> real, request: seq<real>,
                          placed: seq<Placement>)
    requires RootAt(root, SumSquares(request))
    requires RootAt(root, SumSquares(embed(DescribeDesign(placed))))
    requires EvaluateDesign(embed, root, request, placed).Ok?
    ensures 0.0 <= EvaluateDesign(embed, root, request, placed).value.score <= 5.0
  {
    var design := embed(DescribeDesign(placed));
    if |design| > 0 {
      ScoreInRange(request, design, root);
    }
  }

  /** Only the names of the placed items matter: two rooms holding the same names in the same
      order evaluate identically, wherever and however rotated the items are. */
  lemma EvaluationIgnoresPosition(embed: string -> seq<real>, root: real -> real, request: seq<real>,
                                  ps: seq<Placement>, qs: seq<Placement>)
    requires |ps| == |qs|
    requires forall i :: 0 <= i < |ps| ==> ps[i].kind.name == qs[i].kind.name
    ensures EvaluateDesign(embed, root, request, ps) == EvaluateDesign(embed, root, request, qs)
  {
    DescribeIgnoresPosition(ps, qs);
  }
}
