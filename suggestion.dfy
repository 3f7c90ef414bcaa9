/** backend/suggestion.py: the capture-quality decision. The blur score (the
    variance of the Laplacian) and the mean brightness are computed by OpenCV
    and arrive here as numbers. */
module Suggestion {
  const BlurryAdvice: string := "Hold steady or move closer. Image looks blurry."
  const DarkAdvice: string := "Low light detected. Increase lighting or avoid shadows."
  const GlareAdvice: string := "Too bright. Reduce glare or move away from light source."

  /** The position of s in `canon`, or |canon| when it is not there. */
  function Position(canon: seq<string>, s: string): (p: nat)
    ensures p <= |canon|
    ensures p < |canon| ==> canon[p] == s
    ensures p == |canon| ==> s !in canon
  {
    if canon == [] then 0 else if canon[0] == s then 0 else 1 + Position(canon[1..], s)
  }

  /** Every entry of xs is in canon, and xs lists them in canon's order. */
  predicate InCanonicalOrder(xs: seq<string>, canon: seq<string>) {
    && (forall i :: 0 <= i < |xs| ==> xs[i] in canon)
    && (forall i, j :: 0 <= i < j < |xs| ==> Position(canon, xs[i]) < Position(canon, xs[j]))
  }

  /** analyze_quality: accept a frame that is sharp (blur score above 80) and
      well lit (brightness strictly between 50 and 230); otherwise say why, blur
      first, then darkness, then glare. */
  method AnalyzeQuality(blurScore: real, brightness: real) returns (ok: bool, suggestions: seq<string>, score: real)
    ensures ok <==> blurScore > 80.0 && 50.0 < brightness < 230.0
    ensures ok <==> suggestions == []
    ensures BlurryAdvice in suggestions <==> blurScore <= 80.0
    ensures DarkAdvice in suggestions <==> brightness <= 50.0
    ensures GlareAdvice in suggestions <==> brightness >= 230.0
    ensures InCanonicalOrder(suggestions, [BlurryAdvice, DarkAdvice, GlareAdvice])
    ensures |suggestions| <= 2
    ensures score == blurScore
  {
    var isSharp := blurScore > 80.0;
    var isWellLit := 50.0 < brightness < 230.0;
    suggestions := [];
    if !isSharp {
      suggestions := suggestions + [BlurryAdvice];
    }
    if brightness <= 50.0 {
      suggestions := suggestions + [DarkAdvice];
    }
    if brightness >= 230.0 {
      suggestions := suggestions + [GlareAdvice];
    }
    ok := isSharp && isWellLit;
    score := blurScore;
  }
}
