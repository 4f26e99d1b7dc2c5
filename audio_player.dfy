/** The decision logic of the `AudioPlayer` view: which subtitle segments
    are highlighted at the current playback time, and which one the list
    scrolls to. */
module AudioPlayer {
  import opened Wrappers
  import opened SwiftText

  /** The fields of an editable subtitle segment that the player reads. */
  datatype EditableSegment = EditableSegment(id: nat, text: Text, startTime: real, endTime: real)

  /** `isCurrentSegment`: the segment's closed interval contains the time. */
  function IsCurrentSegment(segment: EditableSegment, currentTime: real): (r: bool)
    ensures r ==> segment.startTime <= segment.endTime
    ensures currentTime < segment.startTime || segment.endTime < currentTime ==> !r
    ensures segment.startTime <= currentTime <= segment.endTime ==> r
  {
    currentTime >= segment.startTime && currentTime <= segment.endTime
  }

  /** Both ends of the interval count: a well-formed segment is current at
      its own start and end time. */
  lemma EndpointsAreCurrent(segment: EditableSegment)
    requires segment.startTime <= segment.endTime
    ensures IsCurrentSegment(segment, segment.startTime) && IsCurrentSegment(segment, segment.endTime)
  {
  }

  /** A segment that ends before it starts is never highlighted. */
  lemma InvertedSegmentNeverCurrent(segment: EditableSegment, currentTime: real)
    requires segment.endTime < segment.startTime
    ensures !IsCurrentSegment(segment, currentTime)
  {
  }

  /** `getCurrentSegment`: the first segment, in list order, whose interval
      contains the time; `None` when there is none. */
  function GetCurrentSegment(segments: seq<EditableSegment>, currentTime: real): (r: Option<EditableSegment>)
    ensures r.None? <==> forall i :: 0 <= i < |segments| ==> !IsCurrentSegment(segments[i], currentTime)
    ensures r.Some? ==>
              exists i :: 0 <= i < |segments| && segments[i] == r.value && IsCurrentSegment(r.value, currentTime) &&
                          forall j :: 0 <= j < i ==> !IsCurrentSegment(segments[j], currentTime)
  {
    if segments == [] then None
    else if IsCurrentSegment(segments[0], currentTime) then Some(segments[0])
    else
      var rest := GetCurrentSegment(segments[1..], currentTime);
      assert forall i :: 1 <= i < |segments| ==> segments[i] == segments[1..][i - 1];
      rest
  }

  /** The segments drawn in the highlight colour, in list order. */
  function Highlighted(segments: seq<EditableSegment>, currentTime: real): (r: seq<EditableSegment>)
    ensures |r| <= |segments|
    ensures forall j :: 0 <= j < |r| ==> r[j] in segments && IsCurrentSegment(r[j], currentTime)
  {
    if segments == [] then []
    else if IsCurrentSegment(segments[0], currentTime) then [segments[0]] + Highlighted(segments[1..], currentTime)
    else Highlighted(segments[1..], currentTime)
  }

  /** The segment scrolled to is the first highlighted one; nothing is
      scrolled to exactly when nothing is highlighted. Other highlighted
      segments, when intervals overlap, are not scrolled to. */
  lemma {:induction false} ScrollTargetIsFirstHighlighted(segments: seq<EditableSegment>, currentTime: real)
    ensures GetCurrentSegment(segments, currentTime) ==
              if Highlighted(segments, currentTime) == [] then None else Some(Highlighted(segments, currentTime)[0])
  {
    if segments != [] && !IsCurrentSegment(segments[0], currentTime) {
      ScrollTargetIsFirstHighlighted(segments[1..], currentTime);
    }
  }

  /** Every highlighted segment in the list is reported: a segment of the
      list whose interval contains the time is in `Highlighted`. */
  lemma {:induction false} HighlightedComplete(segments: seq<EditableSegment>, currentTime: real, i: nat)
    requires i < |segments| && IsCurrentSegment(segments[i], currentTime)
    ensures segments[i] in Highlighted(segments, currentTime)
  {
    if i > 0 {
      HighlightedComplete(segments[1..], currentTime, i - 1);
    }
  }

  /** The lookup only depends on the first match: a prefix holding a
      current segment decides the answer, otherwise the rest does. */
  lemma {:induction false} GetCurrentSegmentAppend(a: seq<EditableSegment>, b: seq<EditableSegment>, currentTime: real)
    ensures GetCurrentSegment(a + b, currentTime) ==
              if GetCurrentSegment(a, currentTime).Some? then GetCurrentSegment(a, currentTime)
              else GetCurrentSegment(b, currentTime)
  {
    if a == [] {
      assert a + b == b;
    } else {
      GetCurrentSegmentAppend(a[1..], b, currentTime);
      assert (a + b)[0] == a[0];
      assert (a + b)[1..] == a[1..] + b;
    }
  }
}
