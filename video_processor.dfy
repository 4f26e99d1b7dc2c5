/** The decision logic of `VideoProcessor`: sampling a video once per whole
    second, turning each recognition result into one line of text, and the
    case-insensitive keyword search over the detected frames.

    Image extraction and text recognition are foreign calls (AVFoundation and
    Vision); they enter the model as two oracle functions:
    - `extract(t)` is the frame image at second `t`, or `None` when the
      image generator throws;
    - `recognize(img)` is what the recognition request hands its completion
      handler, as a `Recognition` value. */
module VideoProcessing {
  import opened Wrappers
  import opened SwiftText

  /** One recognised text region: its candidate strings, best first. */
  datatype Observation = Observation(candidates: seq<Text>)

  /** The outcome of running text recognition on one image. */
  datatype Recognition =
    | NoCGImage                          // the image could not be converted to a CGImage
    | NoResults                          // the request's results are not text observations
    | Observed(observations: seq<Observation>)

  /** A sampled frame: the image, the whole second it was taken at and the
      text found in it. */
  datatype Frame<Img> = Frame(image: Img, timestamp: nat, detectedText: Text)

  /** `topCandidates(1).first?.string`: the best candidate, if there is one. */
  function TopCandidate(o: Observation): (r: Option<Text>)
    ensures r.Some? <==> |o.candidates| > 0
    ensures r.Some? ==> r.value == o.candidates[0]
  {
    if |o.candidates| == 0 then None else Some(o.candidates[0])
  }

  /** `observations.compactMap { $0.topCandidates(1).first?.string }`. */
  function TopCandidates(obs: seq<Observation>): (r: seq<Text>)
    ensures |r| <= |obs|
  {
    if obs == [] then [] else Compact(TopCandidate(obs[0])) + TopCandidates(obs[1..])
  }

  /** What `compactMap` keeps of one optional value: the value, or nothing. */
  function Compact<T>(o: Option<T>): (r: seq<T>)
    ensures |r| <= 1
  {
    match o
    case None => []
    case Some(v) => [v]
  }

  /** When every observation has a candidate, the strings are exactly the
      best candidates, one per observation, in order. */
  lemma {:induction false} TopCandidatesAllPresent(obs: seq<Observation>)
    requires forall j :: 0 <= j < |obs| ==> |obs[j].candidates| > 0
    ensures |TopCandidates(obs)| == |obs|
    ensures forall j :: 0 <= j < |obs| ==> TopCandidates(obs)[j] == obs[j].candidates[0]
  {
    if obs != [] {
      TopCandidatesAllPresent(obs[1..]);
    }
  }

  /** Observations without candidates contribute nothing. */
  lemma {:induction false} TopCandidatesNonePresent(obs: seq<Observation>)
    requires forall j :: 0 <= j < |obs| ==> |obs[j].candidates| == 0
    ensures TopCandidates(obs) == []
  {
    if obs != [] {
      TopCandidatesNonePresent(obs[1..]);
    }
  }

  /** compactMap works observation by observation: the candidates of a
      concatenation are the candidates of each part, in order. */
  lemma {:induction false} TopCandidatesAppend(a: seq<Observation>, b: seq<Observation>)
    ensures TopCandidates(a + b) == TopCandidates(a) + TopCandidates(b)
  {
    if a == [] {
      assert a + b == b;
    } else {
      var head := Compact(TopCandidate(a[0]));
      calc {
        TopCandidates(a + b);
        { assert (a + b)[0] == a[0] && (a + b)[1..] == a[1..] + b; }
        head + TopCandidates(a[1..] + b);
        { TopCandidatesAppend(a[1..], b); }
        head + (TopCandidates(a[1..]) + TopCandidates(b));
        TopCandidates(a) + TopCandidates(b);
      }
    }
  }

  /** The text `detectText` passes to its completion handler. */
  function DetectText(rec: Recognition): (r: Text)
    ensures rec.NoCGImage? || rec.NoResults? ==> r == []
    ensures rec.Observed? && TopCandidates(rec.observations) == [] ==> r == []
  {
    match rec
    case NoCGImage => []
    case NoResults => []
    case Observed(obs) => JoinWithSpace(TopCandidates(obs))
  }

  /** When every recognised string is free of spaces and there is at least
      one, cutting the detected text at its spaces yields exactly the best
      candidates, in order: one space between neighbours, and observations
      without a candidate leave no trace. */
  lemma DetectTextSplitsIntoCandidates(obs: seq<Observation>)
    requires |TopCandidates(obs)| >= 1
    requires forall j :: 0 <= j < |TopCandidates(obs)| ==> HasNoSpace(TopCandidates(obs)[j])
    ensures SplitOnSpace(DetectText(Observed(obs))) == TopCandidates(obs)
  {
    SplitJoinRoundTrip(TopCandidates(obs));
  }

  /** Detected text is compositional: the text for two runs of observations
      is the text of each, separated by one space when both yield a string,
      and just the other's text when one of them yields none. This holds
      for candidates with or without spaces. */
  lemma DetectTextAppend(a: seq<Observation>, b: seq<Observation>)
    ensures DetectText(Observed(a + b)) ==
              if TopCandidates(a) == [] then DetectText(Observed(b))
              else if TopCandidates(b) == [] then DetectText(Observed(a))
              else DetectText(Observed(a)) + [' '] + DetectText(Observed(b))
  {
    TopCandidatesAppend(a, b);
    var ta, tb := TopCandidates(a), TopCandidates(b);
    if ta == [] {
      assert ta + tb == tb;
    } else if tb == [] {
      assert ta + tb == ta;
    } else {
      JoinAppend(ta, tb);
    }
  }

  /** Number of iterations of `stride(from: 0.0, to: duration, by: 1.0)`:
      the whole seconds strictly below `duration`, which is the ceiling of a
      positive duration and zero otherwise. */
  function StepCount(duration: real): (n: nat)
    ensures duration <= 0.0 ==> n == 0
    ensures duration > 0.0 ==> (n - 1) as real < duration <= n as real
  {
    if duration <= 0.0 then 0 else -((-duration).Floor)
  }

  /** Step `t` is taken exactly when it is below the step count. */
  lemma StepTaken(duration: real, t: nat)
    ensures (t as real) < duration <==> t < StepCount(duration)
  {
  }

  /** What one sampling step contributes: nothing when extraction fails,
      else one frame carrying the image, the step and its detected text. */
  function StepFrames<Img>(t: nat, extract: nat -> Option<Img>, recognize: Img -> Recognition): (r: seq<Frame<Img>>)
    ensures |r| == if extract(t).Some? then 1 else 0
    ensures |r| == 1 ==> r[0].timestamp == t
  {
    match extract(t)
    case None => []
    case Some(img) => [Frame(img, t, DetectText(recognize(img)))]
  }

  /** The frames produced by the first `n` steps, in step order. */
  function FramesBelow<Img>(n: nat, extract: nat -> Option<Img>, recognize: Img -> Recognition): (r: seq<Frame<Img>>)
    ensures |r| <= n
  {
    if n == 0 then [] else FramesBelow(n - 1, extract, recognize) + StepFrames(n - 1, extract, recognize)
  }

  /** Every frame of the first `n` steps was taken at a step below `n`,
      and their timestamps strictly increase, so no step has two frames. */
  lemma {:induction false} FramesBelowOrdered<Img>(n: nat, extract: nat -> Option<Img>, recognize: Img -> Recognition)
    ensures forall j :: 0 <= j < |FramesBelow(n, extract, recognize)| ==>
              FramesBelow(n, extract, recognize)[j].timestamp < n
    ensures forall i, j :: 0 <= i < j < |FramesBelow(n, extract, recognize)| ==>
              FramesBelow(n, extract, recognize)[i].timestamp < FramesBelow(n, extract, recognize)[j].timestamp
  {
    if n > 0 {
      FramesBelowOrdered(n - 1, extract, recognize);
    }
  }

  /** The timestamps of a frame list, in order. */
  function Timestamps<Img>(frames: seq<Frame<Img>>): (r: seq<nat>)
    ensures |r| == |frames|
    ensures forall j :: 0 <= j < |frames| ==> r[j] == frames[j].timestamp
  {
    if frames == [] then [] else [frames[0].timestamp] + Timestamps(frames[1..])
  }

  lemma {:induction false} TimestampsAppend<Img>(a: seq<Frame<Img>>, b: seq<Frame<Img>>)
    ensures Timestamps(a + b) == Timestamps(a) + Timestamps(b)
  {
  }

  /** A step below `n` has a frame exactly when its image could be
      extracted: a failed step leaves out its own frame and no other. */
  lemma {:induction false} FramesBelowTimestamps<Img>(n: nat, extract: nat -> Option<Img>, recognize: Img -> Recognition, t: nat)
    ensures t in Timestamps(FramesBelow(n, extract, recognize)) <==> t < n && extract(t).Some?
  {
    if n > 0 {
      FramesBelowTimestamps(n - 1, extract, recognize, t);
      var prev := FramesBelow(n - 1, extract, recognize);
      var step := StepFrames(n - 1, extract, recognize);
      assert FramesBelow(n, extract, recognize) == prev + step;
      TimestampsAppend(prev, step);
      if extract(n - 1).Some? {
        assert Timestamps(step) == [n - 1];
      } else {
        assert Timestamps(step) == [];
      }
    }
  }

  /** Each frame holds the image extracted at its own step and the text
      recognised in that image. */
  lemma {:induction false} FramesBelowContent<Img>(n: nat, extract: nat -> Option<Img>, recognize: Img -> Recognition, j: nat)
    requires j < |FramesBelow(n, extract, recognize)|
    ensures extract(FramesBelow(n, extract, recognize)[j].timestamp) == Some(FramesBelow(n, extract, recognize)[j].image)
    ensures FramesBelow(n, extract, recognize)[j].detectedText == DetectText(recognize(FramesBelow(n, extract, recognize)[j].image))
  {
    var prev := FramesBelow(n - 1, extract, recognize);
    if j < |prev| {
      FramesBelowContent(n - 1, extract, recognize, j);
    }
  }

  /** Sampling is step-local: the frames of the first `n` steps are
      unaffected by what extraction does at later steps. */
  lemma {:induction false} FramesBelowLocal<Img>(n: nat, e1: nat -> Option<Img>, e2: nat -> Option<Img>, recognize: Img -> Recognition)
    requires forall t: nat :: t < n ==> e1(t) == e2(t)
    ensures FramesBelow(n, e1, recognize) == FramesBelow(n, e2, recognize)
  {
    if n > 0 {
      FramesBelowLocal(n - 1, e1, e2, recognize);
      assert StepFrames(n - 1, e1, recognize) == StepFrames(n - 1, e2, recognize);
    }
  }

  /** The frames `processVideo` returns for a video of length `duration`. */
  function SampledFrames<Img>(duration: real, extract: nat -> Option<Img>, recognize: Img -> Recognition): (r: seq<Frame<Img>>)
    ensures |r| <= StepCount(duration)
    ensures forall j :: 0 <= j < |r| ==> (r[j].timestamp as real) < duration
  {
    FramesBelowOrdered(StepCount(duration), extract, recognize);
    FramesBelow(StepCount(duration), extract, recognize)
  }

  /** The returned frames are in strictly increasing timestamp order; with
      the bounds `SampledFrames` itself ensures, they are at distinct whole
      seconds below the duration. */
  lemma SampledFramesInRange<Img>(duration: real, extract: nat -> Option<Img>, recognize: Img -> Recognition)
    ensures forall i, j :: 0 <= i < j < |SampledFrames(duration, extract, recognize)| ==>
              SampledFrames(duration, extract, recognize)[i].timestamp < SampledFrames(duration, extract, recognize)[j].timestamp
  {
    FramesBelowOrdered(StepCount(duration), extract, recognize);
  }

  /** A second below the duration yields a frame exactly when its image can
      be extracted, whatever happened at the other seconds. */
  lemma SampledFrameAt<Img>(duration: real, extract: nat -> Option<Img>, recognize: Img -> Recognition, t: nat)
    ensures t in Timestamps(SampledFrames(duration, extract, recognize)) <==> (t as real) < duration && extract(t).Some?
  {
    FramesBelowTimestamps(StepCount(duration), extract, recognize, t);
    StepTaken(duration, t);
  }

  /** `detectedText.lowercased().contains(keyword.lowercased())`. */
  predicate Matches<Img>(f: Frame<Img>, keyword: Text)
    ensures Matches(f, keyword) ==> |keyword| <= |f.detectedText|
  {
    Contains(Lower(f.detectedText), Lower(keyword))
  }

  /** The `filter` in `searchKeyword`, over a given frame list. */
  function Search<Img>(frames: seq<Frame<Img>>, keyword: Text): (r: seq<Frame<Img>>)
    ensures |r| <= |frames|
    ensures forall j :: 0 <= j < |r| ==> r[j] in frames && Matches(r[j], keyword)
  {
    if frames == [] then []
    else if Matches(frames[0], keyword) then [frames[0]] + Search(frames[1..], keyword)
    else Search(frames[1..], keyword)
  }

  /** Search keeps every copy of a matching frame and no copy of any other:
      each frame occurs in the result exactly as often as in the input when
      it matches, and not at all otherwise. */
  lemma {:induction false} SearchCount<Img>(frames: seq<Frame<Img>>, keyword: Text, f: Frame<Img>)
    ensures multiset(Search(frames, keyword))[f] == if Matches(f, keyword) then multiset(frames)[f] else 0
  {
    if frames != [] {
      SearchCount(frames[1..], keyword, f);
      assert frames == [frames[0]] + frames[1..];
    }
  }

  /** `SearchCount` at every frame of the input. */
  lemma SearchCountsAt<Img>(frames: seq<Frame<Img>>, keyword: Text)
    ensures forall j :: 0 <= j < |frames| ==>
              multiset(Search(frames, keyword))[frames[j]] ==
              if Matches(frames[j], keyword) then multiset(frames)[frames[j]] else 0
  {
    forall j | 0 <= j < |frames|
      ensures multiset(Search(frames, keyword))[frames[j]] ==
              if Matches(frames[j], keyword) then multiset(frames)[frames[j]] else 0
    {
      SearchCount(frames, keyword, frames[j]);
    }
  }

  /** `sub` is `s` with some elements left out and the rest in order. */
  ghost predicate IsSubsequence<T>(sub: seq<T>, s: seq<T>)
    decreases |s|
  {
    if sub == [] then true
    else if s == [] then false
    else if sub[0] == s[0] then IsSubsequence(sub[1..], s[1..])
    else IsSubsequence(sub, s[1..])
  }

  lemma {:induction false} SubsequenceOfTail<T>(sub: seq<T>, x: T, s: seq<T>)
    requires IsSubsequence(sub, s)
    ensures IsSubsequence(sub, [x] + s)
    decreases |s|
  {
    if sub != [] && sub[0] == x {
      assert s != [];
      if sub[0] == s[0] {
        SubsequenceOfTail(sub[1..], s[0], s[1..]);
        assert [s[0]] + s[1..] == s;
      } else {
        SubsequenceOfTail(sub, x, s[1..]);
        SubsequenceOfTail(sub[1..], s[0], s[1..]);
        assert [s[0]] + s[1..] == s;
      }
    }
  }

  /** Search keeps the frames' order and invents none: its result is an
      order-preserving subsequence of the input, and every input frame that
      matches is in it. */
  lemma {:induction false} SearchIsOrderedFilter<Img>(frames: seq<Frame<Img>>, keyword: Text)
    ensures IsSubsequence(Search(frames, keyword), frames)
    ensures forall j :: 0 <= j < |frames| && Matches(frames[j], keyword) ==> frames[j] in Search(frames, keyword)
  {
    if frames != [] {
      SearchIsOrderedFilter(frames[1..], keyword);
      if !Matches(frames[0], keyword) {
        SubsequenceOfTail(Search(frames[1..], keyword), frames[0], frames[1..]);
        assert [frames[0]] + frames[1..] == frames;
      }
    }
  }

  /** Search works frame by frame: the result for a concatenation is the
      concatenation of the results, so each frame is kept or dropped on its
      own text alone. */
  lemma {:induction false} SearchAppend<Img>(a: seq<Frame<Img>>, b: seq<Frame<Img>>, keyword: Text)
    ensures Search(a + b, keyword) == Search(a, keyword) + Search(b, keyword)
  {
    if a != [] {
      SearchAppend(a[1..], b, keyword);
      assert (a + b)[1..] == a[1..] + b;
    } else {
      assert a + b == b;
    }
  }

  /** Matching is case-insensitive: two keywords with the same lowercase
      form find the same frames. */
  lemma {:induction false} SearchCaseInsensitive<Img>(frames: seq<Frame<Img>>, k1: Text, k2: Text)
    requires Lower(k1) == Lower(k2)
    ensures Search(frames, k1) == Search(frames, k2)
  {
    if frames != [] {
      SearchCaseInsensitive(frames[1..], k1, k2);
    }
  }

  /** Searching with the lowercased keyword finds what the keyword finds. */
  lemma SearchLowercasedKeyword<Img>(frames: seq<Frame<Img>>, keyword: Text)
    ensures Search(frames, Lower(keyword)) == Search(frames, keyword)
  {
    LowerIdempotent(keyword);
    SearchCaseInsensitive(frames, Lower(keyword), keyword);
  }

  /** A frame matches exactly when the lowercased keyword occurs at some
      position of the lowercased text. */
  lemma MatchesIffOccurs<Img>(f: Frame<Img>, keyword: Text)
    ensures Matches(f, keyword) <==> exists i :: OccursAt(Lower(f.detectedText), Lower(keyword), i)
  {
    assert Matches(f, keyword) == Contains(Lower(f.detectedText), Lower(keyword));
    ContainsIffOccurs(Lower(f.detectedText), Lower(keyword));
  }

  /** `VideoProcessor`: the published frame list and processing flag, the
      sampling pipeline and the keyword search. */
  class VideoProcessor<Img> {
    var detectedFrames: seq<Frame<Img>>
    var isProcessing: bool

    constructor ()
      ensures detectedFrames == [] && !isProcessing
    {
      detectedFrames := [];
      isProcessing := false;
    }

    /** `processVideo`: one step per whole second below `duration`; a step
        whose image cannot be extracted is skipped, every other step appends
        one frame with the text recognised in its image. The frames are
        returned, not stored in `detectedFrames`. */
    method ProcessVideo(duration: real, extract: nat -> Option<Img>, recognize: Img -> Recognition)
      returns (frames: seq<Frame<Img>>)
      ensures frames == SampledFrames(duration, extract, recognize)
    {
      var n := StepCount(duration);
      frames := [];
      var time: nat := 0;
      while (time as real) < duration
        invariant time <= n
        invariant frames == FramesBelow(time, extract, recognize)
        decreases n - time
      {
        var image := extract(time);
        if image.None? {
          assert FramesBelow(time + 1, extract, recognize) == frames;
          time := time + 1;
          continue;
        }
        var text := DetectText(recognize(image.value));
        assert StepFrames(time, extract, recognize) == [Frame(image.value, time, text)];
        frames := frames + [Frame(image.value, time, text)];
        time := time + 1;
      }
    }

    /** `searchKeyword`: the stored frames whose lowercased text contains
        the lowercased keyword, in their stored order; reading it changes
        nothing. */
    function SearchKeyword(keyword: Text): (r: seq<Frame<Img>>)
      reads this
      ensures |r| <= |detectedFrames|
      ensures forall j :: 0 <= j < |r| ==> r[j] in detectedFrames && Matches(r[j], keyword)
      ensures forall j :: 0 <= j < |detectedFrames| && Matches(detectedFrames[j], keyword) ==> detectedFrames[j] in r
      ensures IsSubsequence(r, detectedFrames)
      ensures forall j :: 0 <= j < |detectedFrames| ==>
                multiset(r)[detectedFrames[j]] ==
                if Matches(detectedFrames[j], keyword) then multiset(detectedFrames)[detectedFrames[j]] else 0
    {
      SearchIsOrderedFilter(detectedFrames, keyword);
      SearchCountsAt(detectedFrames, keyword);
      Search(detectedFrames, keyword)
    }
  }
}
