# VideoTextDetector decision logic in Dafny

VideoTextDetector is a macOS app. It samples a video once per second and runs
text recognition on each sampled image. The user can then search the detected
frames for a keyword. A companion player view highlights the subtitle segment
under the playhead and scrolls to it. This project models the decision logic
behind those features and proves what each piece promises:

- `SwiftText` (`swift_text.dfy`): the parts of Swift's `String` API that the
  logic relies on, over `seq<char>`. These are `lowercased()` (ASCII letters
  only), `contains(_:)` as a left-to-right scan, and `joined(separator: " ")`.
  `SplitOnSpace` is its inverse partner.
- `VideoProcessing` (`video_processor.dfy`): the `VideoProcessor` class. It
  holds the text that `detectText` makes from a recognition result, the
  sampling loop of `processVideo` (a method with a loop, proved against the
  function `SampledFrames`), and the `searchKeyword` filter.
- `AudioPlayer` (`audio_player.dfy`): `isCurrentSegment`, `getCurrentSegment`,
  and the relation between highlighted segments and the one scrolled to.
- `Wrappers` (`wrappers.dfy`): `Option`, standing for Swift's `T?`.

Image extraction (`AVAssetImageGenerator.copyCGImage`) and text recognition
(Vision's `VNRecognizeTextRequest`) are foreign calls. They enter the model as
two oracle functions given to `ProcessVideo`. `extract(t)` is the image at
second `t`, or `None` when the generator throws. `recognize(img)` is a
`Recognition`: the image could not be converted to a `CGImage`, or the results
were not text observations, or a list of observations with their ranked
candidate strings. The recognition level and language are forwarded to
Vision without being used, so they are folded into `recognize`.

Sample times are whole seconds. `stride(from: 0.0, to: duration, by: 1.0)`
yields 0, 1, 2, … strictly below `duration`, and every such value is exactly
representable. The model therefore uses a `nat` step and a `real` duration
that is only compared. A frame's `timestamp` is its step.

## Model

| member | source | states |
|---|---|---|
| `SwiftText.LowerChar` | VideoTextDetector/VideoProcessor.swift:62 | ASCII capitals map to the lowercase letter 32 code points up; other characters are unchanged; the result is never an ASCII capital |
| `SwiftText.Lower` | VideoTextDetector/VideoProcessor.swift:62 | lowercasing keeps the length and lowercases each character in place |
| `SwiftText.LowerIdempotent` | VideoTextDetector/VideoProcessor.swift:62 | lowercasing an already lowercased string changes nothing |
| `SwiftText.Contains` | VideoTextDetector/VideoProcessor.swift:62 | `contains` can only succeed when the keyword is no longer than the text, and it succeeds whenever the text starts with the keyword |
| `SwiftText.ContainsIffOccurs` | VideoTextDetector/VideoProcessor.swift:62 | the `contains` scan succeeds exactly when the keyword occurs as a contiguous run at some position of the text |
| `SwiftText.JoinWithSpace` | VideoTextDetector/VideoProcessor.swift:50 | the joined text starts with the first part, and with two or more parts that first part is followed by a single space |
| `SwiftText.JoinAppend` | VideoTextDetector/VideoProcessor.swift:50 | for any two non-empty lists of parts, with or without spaces, joining their concatenation is joining each and putting one space between the results |
| `SwiftText.SplitJoinRoundTrip` | VideoTextDetector/VideoProcessor.swift:50 | joining one or more space-free strings with a single space and cutting the result at its spaces gives back the strings, in order |
| `SwiftText.JoinLength` | VideoTextDetector/VideoProcessor.swift:50 | the joined text is as long as the parts together plus one separator between each neighbouring pair |
| `VideoProcessing.TopCandidate` | VideoTextDetector/VideoProcessor.swift:50 | an observation yields a string exactly when it has a candidate, and that string is its best candidate |
| `VideoProcessing.TopCandidates` | VideoTextDetector/VideoProcessor.swift:50 | `compactMap` yields at most one string per observation |
| `VideoProcessing.TopCandidatesAllPresent` | VideoTextDetector/VideoProcessor.swift:50 | when every observation has a candidate, the strings are the best candidates, one per observation, in order |
| `VideoProcessing.TopCandidatesNonePresent` | VideoTextDetector/VideoProcessor.swift:50 | when no observation has a candidate, there are no strings |
| `VideoProcessing.TopCandidatesAppend` | VideoTextDetector/VideoProcessor.swift:50 | the strings of a concatenation of observation lists are the strings of each list, in order |
| `VideoProcessing.DetectText` | VideoTextDetector/VideoProcessor.swift:38-52 | the detected text is empty when the image cannot be converted, when the results are not text observations, or when no observation yields a candidate string |
| `VideoProcessing.DetectTextSplitsIntoCandidates` | VideoTextDetector/VideoProcessor.swift:45-51 | for space-free candidates, the detected text is the best candidates separated by single spaces; observations without a candidate leave no trace |
| `VideoProcessing.DetectTextAppend` | VideoTextDetector/VideoProcessor.swift:50 | for any candidates, the text of two runs of observations is the text of each joined by one space when both yield a string, and just the other's text when one yields none |
| `VideoProcessing.StepCount` | VideoTextDetector/VideoProcessor.swift:19 | the number of sample times is 0 for a duration of 0 or less, and the ceiling of a positive duration |
| `VideoProcessing.StepTaken` | VideoTextDetector/VideoProcessor.swift:19 | step `t` is sampled exactly when `t` is strictly below the duration |
| `VideoProcessing.StepFrames` | VideoTextDetector/VideoProcessor.swift:20-32 | one sampling step contributes one frame, stamped with the step, when extraction succeeds, and none when it fails |
| `VideoProcessing.FramesBelow` | VideoTextDetector/VideoProcessor.swift:19-33 | the first `n` steps produce at most `n` frames |
| `VideoProcessing.FramesBelowOrdered` | VideoTextDetector/VideoProcessor.swift:19-33 | after `n` steps every frame is stamped below `n`, and the timestamps strictly increase, so no step has two frames |
| `VideoProcessing.FramesBelowTimestamps` | VideoTextDetector/VideoProcessor.swift:19-33 | after `n` steps, a frame stamped `t` exists exactly when `t < n` and the image at `t` could be extracted |
| `VideoProcessing.FramesBelowContent` | VideoTextDetector/VideoProcessor.swift:21-32 | every frame holds the image extracted at its own step and the text detected in that image |
| `VideoProcessing.FramesBelowLocal` | VideoTextDetector/VideoProcessor.swift:19-21 | the frames of the first `n` steps depend only on extraction at those steps; a failure affects only its own step |
| `VideoProcessing.SampledFrames` | VideoTextDetector/VideoProcessor.swift:19-35 | the frames `processVideo` returns number at most ceil(duration), and each is stamped strictly below the duration |
| `VideoProcessing.SampledFramesInRange` | VideoTextDetector/VideoProcessor.swift:19-35 | the returned frames are in strictly increasing timestamp order, so each whole second below the duration has at most one frame |
| `VideoProcessing.SampledFrameAt` | VideoTextDetector/VideoProcessor.swift:19-35 | second `t` has a returned frame exactly when `t` is below the duration and its image could be extracted, whatever happened at other seconds |
| `VideoProcessing.Search` | VideoTextDetector/VideoProcessor.swift:61-63 | the search result is no longer than the input, and every frame in it is an input frame whose lowercased text contains the lowercased keyword |
| `VideoProcessing.Matches` | VideoTextDetector/VideoProcessor.swift:62 | a frame can only match a keyword that is no longer than its text |
| `VideoProcessing.SearchCount` | VideoTextDetector/VideoProcessor.swift:62 | every frame occurs in the result as often as in the input when it matches, and not at all otherwise, so duplicate frames are all kept |
| `VideoProcessing.SearchIsOrderedFilter` | VideoTextDetector/VideoProcessor.swift:62 | the result is an order-preserving subsequence of the frames, and every matching frame is in it |
| `VideoProcessing.SearchAppend` | VideoTextDetector/VideoProcessor.swift:62 | searching a concatenation gives the concatenation of the searches, so each frame is kept or dropped on its own text |
| `VideoProcessing.SearchCaseInsensitive` | VideoTextDetector/VideoProcessor.swift:62 | two keywords with the same lowercase form find identical results |
| `VideoProcessing.SearchLowercasedKeyword` | VideoTextDetector/VideoProcessor.swift:62 | searching for the lowercased keyword finds what the keyword finds |
| `VideoProcessing.MatchesIffOccurs` | VideoTextDetector/VideoProcessor.swift:62 | a frame matches exactly when the lowercased keyword occurs at some position of its lowercased text |
| `VideoProcessing.VideoProcessor.constructor` | VideoTextDetector/VideoProcessor.swift:6-8 | a new processor has no detected frames and is not processing |
| `VideoProcessing.VideoProcessor.ProcessVideo` | VideoTextDetector/VideoProcessor.swift:10-36 | the sampling loop returns exactly the frames of the specification function, one per extractable second below the duration, in order; the processor's fields are not changed |
| `VideoProcessing.VideoProcessor.SearchKeyword` | VideoTextDetector/VideoProcessor.swift:61-63 | the result is an order-preserving subsequence of `detectedFrames`, holding exactly the stored frames whose lowercased text contains the lowercased keyword, each as many times as it is stored; reading it changes no state |
| `AudioPlayer.IsCurrentSegment` | VideoTextDetector/AudioPlayer.swift:47-49 | a time is current exactly when it lies in the closed interval from start to end: inside or on either end it is current, before the start or after the end it is not; so only a well-formed segment (start not after end) can be current |
| `AudioPlayer.EndpointsAreCurrent` | VideoTextDetector/AudioPlayer.swift:48 | the interval is closed: a well-formed segment is current at its own start and end time |
| `AudioPlayer.InvertedSegmentNeverCurrent` | VideoTextDetector/AudioPlayer.swift:48 | a segment whose end is before its start is never current |
| `AudioPlayer.GetCurrentSegment` | VideoTextDetector/AudioPlayer.swift:51-55 | the lookup is `None` exactly when no segment is current, the empty list included; otherwise it is a current segment of the list at some index, and no segment at an earlier index is current |
| `AudioPlayer.Highlighted` | VideoTextDetector/AudioPlayer.swift:16-20 | the highlighted segments are list segments that are current, no more of them than the list holds |
| `AudioPlayer.HighlightedComplete` | VideoTextDetector/AudioPlayer.swift:16-20 | every segment of the list that is current is highlighted |
| `AudioPlayer.ScrollTargetIsFirstHighlighted` | VideoTextDetector/AudioPlayer.swift:16-35 | the segment scrolled to is the first highlighted one, and nothing is scrolled to exactly when nothing is highlighted; with overlapping intervals the later highlighted segments are not scrolled to |
| `AudioPlayer.GetCurrentSegmentAppend` | VideoTextDetector/AudioPlayer.swift:51-55 | the lookup over a concatenation is the first list's answer if it has one, else the second list's |

## Left out

- Lowercasing covers ASCII letters only. `String.lowercased()` also folds other Unicode letters, and can change a string's length. Those cases are not modelled.
- SwiftText.Contains: compares Unicode scalars one at a time. Swift's `String.contains` compares Characters (grapheme clusters) under canonical equivalence. So for the text "\u{E9}" (a precomposed é) and the keyword "e\u{301}" (e followed by a combining acute accent), Swift reports a match and the model does not. Texts and keywords in NFC in which every Character is a single Unicode scalar (no combining marks, no CR LF pairs, no emoji or flag sequences) behave the same in both. For example, the model finds "\r" in "a\r\n", but Swift's Character comparison does not, because "\r\n" is one Character.
- SwiftText.Contains: the empty keyword is left open in the source. Whether it matches every frame depends on which `contains` overload Swift resolves. The model's `Contains` counts the empty keyword as contained everywhere, so every frame matches it. `Contains`'s `IsPrefix(k, s) ==> r`, `ContainsIffOccurs` and `MatchesIffOccurs` include that case. Under an overload that reports no match for an empty keyword, they hold only for non-empty keywords.
- `DetectedFrame.id` is a fresh `UUID` per frame. It is not modelled, so frames are compared by image, timestamp and text.
- Floating-point time and `CMTime`: durations that are NaN or infinite are not modelled, and sample times are the exact whole seconds that `stride` produces.
- The `async` continuation in `processVideo`: if `VNImageRequestHandler.perform` throws, the completion handler may not be called, and then the loop never resumes. The model assumes recognition always reports a result.
- Image extraction, `NSImage`/`CGImage` conversion and text recognition are foreign calls. They are the oracles `extract` and `recognize`; the recognition level and language are only forwarded to them.
- `processVideo` is `async throws`, but nothing in it throws: extraction failures are swallowed by `try?`. The model has no error result for it.
- `processVideo` returns its frames and does not store them in `detectedFrames`. Nothing in `VideoProcessor.swift` or `ContentView.swift` sets `isProcessing`. The model keeps both facts: `ProcessVideo` leaves the fields alone, and `SearchKeyword` searches whatever `detectedFrames` holds.
- `@Published` change notification is UI plumbing and is not modelled.
- `EditableSegment` is declared outside `AudioPlayer.swift`, so the model uses a minimal record with an id, text, start time and end time. Times are reals, because the player only compares them.
- The SwiftUI view bodies are not modelled: the layout, colours, `withAnimation`, the scrolling itself, and `AVPlayerControllerRepresented`. Of these views, only the highlight choice (line 20) and the scroll-target choice (lines 30-35) are modelled.
- `ContentView`, `VideoTextDetectorApp` and `VideoPlayer` are SwiftUI, file-panel and playback code, and are not part of this model. That includes `formatTime`, which depends on the local calendar and time zone. `ContentView` also calls a `processVideo(url:)` signature that the processor does not declare.
- The app's description mentions segment clustering, split/merge/undo editing and SRT/JSON export, but the modelled sources hold no code for them. They are not part of this model.
