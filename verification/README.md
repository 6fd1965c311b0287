# A verified model of the browser broker

The broker lends browser tabs to callers, takes pictures of pages and says what changed between two
of them. This project models its algorithmic cores and its protocols in Dafny 4.11 and proves what
they promise, on all inputs and over all runs. `dafny verify dfyconfig.toml` checks everything.

| file | models | main results |
|---|---|---|
| `diff/Boxes.dfy`, `diff/Components.dfy`, `diff/Merge.dfy`, `diff/MergeOrder.dfy`, `diff/Regions.dfy` | src/diff/regions.ts | the flood fill finds the 4-connected components; merging gives the finest partition whose hulls are out of reach, in whatever order the boxes come; summed counts equal a recount; the list is a function of the mask |
| `diff/DiffGeometry.dfy`, `diff/Mask.dfy`, `diff/Image.dfy`, `diff/Crops.dfy`, `diff/Compare.dfy` | src/diff/*.ts and their composition in src/service/comparison.ts | no pair of images makes the pipeline throw; crops and overlay are exact pixel for pixel |
| `capture/Downscale.dfy` | src/capture/image.ts | windows tile the source; every output channel is a rounded mean between its window's extremes |
| `browser/Snapshot.dfy`, `Text.dfy` | `filterSnapshot` in src/browser/real.ts | the one-pass stack is the ancestor relation; ancestry survives; filtering is idempotent |
| `browser/Session.dfy` | the page map and keeper in src/browser/real.ts | the keeper is never closed or handed out; `closed` means the page left |
| `browser/NetworkLog.dfy` | the recorder and renderer in src/browser/real.ts | entry k describes request k for ever; a written log reads back |
| `browser/Adoption.dfy` | src/browser/adoption.ts | two launch grants are always separated by an outcome |
| `browser/ColdStart.dfy` | src/browser/launch.ts, src/browser/discovery.ts | at most one spawn; a refusal signals exactly the spawned process; the one way round that, exactly |
| `browser/ProfileMarker.dfy` | src/browser/profile-marker.ts | a total order on versions; compatibility is upward closed |
| `cli/Arguments.dfy`, `cli/Commands.dfy` | src/cli/adapter.ts, src/cli/conformance-driver.ts, src/cli/commands.ts | printing then parsing gives a case back exactly when no value has the shape of an option |
| `cli/Login.dfy` | src/cli/login-command.ts | a begun sign-in is ended by exactly one call under every interleaving |
| `artifacts/Names.dfy`, `artifacts/NameMarks.dfy`, `artifacts/Store.dfy` | src/artifacts/names.ts, src/artifacts/store.ts | names are safe segments and sort by time; exactly when a name holds a run of hyphens and when two texts give one name; what is written is found again, and nothing leaves the root |

`Arithmetic.dfy`, `Wrappers.dfy` and `Text.dfy` hold what several of them share.

## How to read it

- Code that the source writes as loops over buffers or as objects with changing fields is written the
  same way here: arrays, `while` loops with invariants, classes. Each such method is tied by its
  `ensures` to a specification, and the lemmas are about the specification.
- The protocols are state machines. A step is what runs between two awaits or inside one transaction;
  a class holds the fields and its methods are proved equal to the step, and the theorems quantify over
  all sequences of events.
- The world is a parameter: the comparison library is an arbitrary byte per pixel, lower-casing and
  address parsing are arbitrary functions, clocks, endpoints and signals are events.
- Byte buffers hold four bytes a pixel, as in the source. The mask is one flag a pixel: the source
  stores 0 or 1 in a byte and never anything else.
- Ratios are exact rationals. `Math.round`, `Math.floor` and `Math.ceil` are written out on integers.

## Where the code is not what its words say

- src/browser/launch.ts:351-383 and 595-619 say that every failed launch ends the process it spawned.
  There is one way past it. `verifyDiscoveryRecord` reads a field of the endpoint's JSON document
  outside the handler that covers the request (src/browser/discovery.ts:234-261), so a document that is
  JSON `null` raises an error nothing catches, and the call leaves with the process running.
  `ColdStart.EscapesOnlyOnNull` proves that this happens exactly when the loop reaches such an answer,
  `ColdStart.NullReplyLeavesProcess` is a whole call that leaves its process unsignalled, and
  `ColdStart.StartsOrRefuses` says exactly when the others start and when they refuse. Creating the profile
  directory and the spawn itself may also throw; that is before there is a process, nothing is signalled,
  and `ColdStart.ColdStartDetached` has an outcome of its own for it.
- src/diff/regions.ts:200-208 says passes must repeat because one would leave boxes unmerged. The inner
  loop already retries a widened box against everything passed, so a second pass never moves anything:
  `Merge.MergeRegions` proves that there are at most two, and the second only confirms.
- src/browser/adoption.ts promises one winner, which is what `Adoption.GrantsAreSeparated` proves. It is
  not one launch ever: `Adoption.StaleObserverRelaunches` is a history in which a caller with a stale
  observation is told to launch over a row that says `running`, and `Adoption.GrantCondition` says
  exactly when a grant is given.
- src/artifacts/names.ts:82-86 says that a name never contains a run of hyphens. It may, even when nobody
  typed one: `NameMarks.RunFromNothingTyped` shows that a space and a hyphen between two letters come out
  as two hyphens. `NameMarks.RunSurvives` says exactly when a name holds a run: somewhere after a letter or
  a digit the text has a hyphen that follows a hyphen or an unsafe character, and a letter or a digit
  after that still fits in the name.
- src/artifacts/names.ts:101-102 says that unsafe characters become separators so that two distinguishable
  inputs do not collapse into one name. They may: `NameMarks.DifferentTextsOneName` gives two texts that
  both come out as `a-b-c`. `NameMarks.SameName` says exactly when two texts give one name: when they show
  the same letters and digits at the same columns, as far as a name reaches.

## Model

| member | source | states |
|---|---|---|
| Boxes.WithinGrows | src/diff/regions.ts:176-180 | growing either of two boxes never takes them out of reach |
| Boxes.WithinMeansPixelsClose | src/diff/regions.ts:175-180 | two boxes are within a distance exactly when a pixel of one and a pixel of the other have at most that many untouched columns and rows between them |
| Components.VisitNeighbours | src/diff/regions.ts:145-160 | the four index tests mark and push exactly the changed edge-sharing neighbours not yet seen, each once |
| Components.FloodFrom | src/diff/regions.ts:123-169 | one fill sees exactly the pixels connected to its start; its box is tight and its count is their number; it terminates because each pixel is popped once |
| Components.FindComponents | src/diff/regions.ts:110-173 | one region per 4-connected component, in scan order of the components' first pixels, each the tight box and the size of its component |
| Components.ComponentsPartition | src/diff/regions.ts:95-109 | every changed pixel lies in the component of exactly one region |
| Components.ComponentsAreDetermined | src/diff/regions.ts:110-173 | the list of regions is a function of the mask |
| Components.ComponentBoxFits | src/diff/regions.ts:163-169 | every region is a nonempty box inside the picture |
| Regions.ComponentCountsAddUp | src/diff/regions.ts:139-168 | the counts of all regions add up to the number of changed pixels |
| Merge.GathersUnion | src/diff/regions.ts:182-198 | the union of two gathered boxes is the hull of both groups with the counts summed |
| Merge.CloseGroupsStayTogether | src/diff/regions.ts:224-231 | groups whose hulls are within reach lie in one group of every partition whose hulls are pairwise out of reach |
| Merge.Absorb | src/diff/regions.ts:218-235 | a box absorbs everything it comes to reach; afterwards the list is pairwise out of reach again |
| Merge.OnePass | src/diff/regions.ts:214-238 | a pass leaves the boxes pairwise apart and moves nothing when they already were |
| Merge.MergeRegions | src/diff/regions.ts:209-242 | for every list of boxes and every distance the loop terminates with the hulls and totals of the finest partition whose hulls are pairwise farther apart than the distance, after at most two passes |
| MergeOrder.FinestGroupIsShared | src/diff/regions.ts:200-208 | the finest separated partition of a list is unique, group by group and box by box |
| MergeOrder.MergeIgnoresOrder | src/diff/regions.ts:200-208 | confluence: two lists of the same boxes in any order merge into the same boxes with the same counts |
| Regions.MergedBoxPixels | src/diff/regions.ts:193-196 | the changed pixels inside a merged box are exactly those of the components gathered into it, although component boxes may overlap |
| Regions.SummedCountsAreExact | src/diff/regions.ts:83-86 | after merging, every changed pixel lies in exactly one box, each box is inside the picture, and its summed count equals a recount of the mask inside it |
| Regions.ThinLineMeans | src/diff/regions.ts:251-258 | a thin line has a side of one to four pixels and another at least six times as long, whichever way round |
| Regions.DiscardedIsSmallAndStubby | src/diff/regions.ts:260-268 | a box is discarded exactly when it is under the minimum area and, if at most four pixels thick, shorter than six times its thickness; a line one pixel thick is kept from six pixels of length on, whatever the minimum |
| Regions.CompareIsStrictTotalOrder | src/diff/regions.ts:286-294 | among boxes that are apart the comparator puts the larger box first, then the higher one, then the one further left, never ties, and is antisymmetric and transitive |
| Regions.SortRegions | src/diff/regions.ts:286-294 | the sorted list is a permutation in comparator order |
| Regions.ExtractRegions | src/diff/regions.ts:282-295 | the list is the survivors of the merged components, by area downwards, then by row and then by column upwards |
| Regions.ExtractionIsSound | src/diff/regions.ts:270-295 | the list holds exactly the merged boxes that survive the filter, by area downwards, then by row and column upwards, and the merged boxes account for the whole mask |
| Regions.ExtractionIsDetermined | src/diff/regions.ts:286-290 | the extracted list is a function of the mask and the options, whatever sort produced it |
| DiffGeometry.ComparableGeometry | src/diff/geometry.ts:89-182 | when a pair is comparable, over which largest shared rectangle, when a width mismatch and a change of page length are reported, and which explanation is given when |
| Mask.ComputeMask | src/diff/mask.ts:75-130 | it succeeds exactly when the widths agree and the wanted rows fit both images; every flag is the library's verdict on the rows both share |
| Mask.MarkedPixelDiffers | src/diff/mask.ts:109-130 | pixel (x, y) is marked exactly when the library, comparing earlier rows with current ones, gave it a visible alpha |
| Mask.PrefixLength | src/diff/mask.ts:96-107 | the two buffer prefixes handed to the library are inside the buffers |
| Image.ClampIsIntersection | src/diff/image.ts:61-90 | clamping is intersection with the image, and gives nothing exactly when the two share no pixel |
| Image.Crop | src/diff/image.ts:92-125 | a crop is refused exactly when the rectangle is empty or leaves the image, and otherwise equals the source pixel for pixel in a buffer of its own |
| Image.SetPixel | src/diff/image.ts:135-145 | exactly one pixel is painted, or nothing when it lies outside |
| Image.OutlineRectangle | src/diff/image.ts:147-182 | exactly the pixels of the rectangle closer than the thickness to one of its sides are painted, for every rectangle and thickness |
| Image.CopyImage | src/diff/image.ts:184-187 | an equal picture in a fresh buffer |
| Crops.PaddingKeepsRegion | src/diff/crops.ts:64-94 | a region of the compared area always gets a rectangle: it contains the region, fits, and holds exactly the pixels of that area within the padding |
| Crops.CutRegionCrops | src/diff/crops.ts:105-121 | both crops show one rectangle of the two captures, whenever it fits both |
| Crops.MarkedMeans | src/diff/crops.ts:123-143 | a pixel is marked exactly when it lies in the two outermost rows or columns of some region |
| Crops.DrawOverlay | src/diff/crops.ts:123-143 | the overlay differs from the capture exactly on the pixels within two of a side of some region, which carry the outline colour; the capture is not written |
| Compare.CutAll | src/service/comparison.ts:384-411 | no region is skipped and no crop throws |
| Compare.RunComparison | src/service/comparison.ts:347-429 | no pair of images makes the pipeline throw: a comparable pair is diffed with both crops of every kept region and the overlay, and any other pair is answered with its geometry |
| Compare.ExtractedFits | src/diff/crops.ts:73-76 | every extracted region is a nonempty box of the compared area |
| Compare.DiffIsTrue | src/service/comparison.ts:373-378 | reported counts are recounts, no pixel is counted twice, the list is in order and within the cap, it is called truncated exactly when a surviving region is missing from it, and a changed pixel outside it lies in a box that was too small or was cut off behind boxes that all come before it |
| Compare.OverlayShows | src/diff/crops.ts:137-143 | the overlay of a diff is the current capture, red in the two outermost rows and columns of every reported region |
| Compare.CropsShow | src/diff/crops.ts:96-121 | both crops show at one place the same pixel, each of its own capture |
| Downscale.ScalingIsSound | src/capture/image.ts:68-91 | scaling never upscales, makes the long edge the cap, keeps both sides positive and the orientation, and does nothing exactly when the picture is inside the cap or one pixel |
| Downscale.ScalingKeepsAspect | src/capture/image.ts:86-90 | each side is the exactly scaled side rounded to the nearest pixel, or one |
| Downscale.EmptySideIsUpscaled | src/capture/image.ts:76-91 | a side is upscaled exactly when the picture has an empty side and is over the cap; a decoded picture has none |
| Downscale.WindowsTile | src/capture/image.ts:118-126 | windows are nonempty and inside the source, start at its first index and end at its last, advance, and meet with an overlap of at most one |
| Downscale.WindowIsOverlap | src/capture/image.ts:119-126 | a window holds exactly the source rows or columns that overlap the exact interval its destination covers |
| Downscale.WindowsOverlapOnlyNeighbours | src/capture/image.ts:119-126 | a source row or column is shared by at most two windows, neighbours |
| Downscale.EverySourcePixelIsRead | src/capture/image.ts:97-103 | every source pixel is averaged into some destination pixel |
| Downscale.AverageWindow | src/capture/image.ts:128-148 | the four running sums give each channel's rounded mean over the window, in that channel |
| Downscale.WindowSumSplits | src/capture/image.ts:128-143 | the window of one pixel sums to its sample, and a window cut in two along a row or a column sums to its parts |
| Downscale.OneSampleCountsOnce | src/capture/image.ts:128-143 | every sample of the window counts once: changing it by d changes the sum by d, and changing one outside changes nothing |
| Downscale.MeanIsRoundedSum | src/capture/image.ts:144-148 | a mean is the sum over the number of samples, to the nearest whole number, halves up |
| Downscale.MeanIsBetween | src/capture/image.ts:144-148 | a mean lies between any bounds on its samples, so it never overflows a byte |
| Downscale.Shrink | src/capture/image.ts:110-153 | the same picture when nothing needs shrinking, and otherwise a new one whose every pixel is the mean of its window |
| Downscale.ShrunkPixelIsMean | src/capture/image.ts:93-153 | every channel of every shrunk pixel is the rounded mean of its window, in which each sample of the window counts once and no other sample counts |
| Downscale.ShrunkPixelIsBetween | src/capture/image.ts:93-109 | every output channel lies between its window's bounds; a window of one colour keeps it |
| Text.SplitOfJoin | src/browser/real.ts:557-613 | splitting joined lines gives the lines back |
| Text.JoinOfSplit | src/browser/real.ts:557-613 | joining what was split gives the text back |
| Snapshot.DepthIsIndent | src/browser/real.ts:572-578 | the depth of a line is the length of the run of spaces it begins with |
| Snapshot.AncestorByIndent | src/browser/real.ts:513-544 | one line is an ancestor of another exactly when every line with a text from just below it down to the other is indented further than it |
| Snapshot.MatchesMeans | src/browser/real.ts:588-590 | words are found whatever the case of either side; a pattern sees the line as it is |
| Snapshot.KeptByIndent | src/browser/real.ts:563-613 | a line is kept exactly when it has a text and either matches or a matching line stands below it with it as an ancestor, in terms of indents alone |
| Snapshot.PopTo | src/browser/real.ts:578-586 | popping to the line's depth leaves exactly its ancestors |
| Snapshot.KeepLines | src/browser/real.ts:563-594 | the one pass keeps exactly the matching nonblank lines and their ancestors |
| Snapshot.Narrow | src/browser/real.ts:596-613 | the wanted lines, each once and in their order; nothing exactly when nothing matched |
| Snapshot.WantedIsAncestorClosed | src/browser/real.ts:533-536 | every ancestor of a kept line is kept |
| Snapshot.AncestorsAreKept | src/browser/real.ts:515-544 | every kept line has the same ancestors in the output as in the input |
| Snapshot.FilterSnapshot | src/browser/real.ts:556-614 | the narrowed text, or the fact that nothing matched with the number of lines |
| Snapshot.MissTellsLineCount | src/browser/real.ts:596-606 | a miss is reported exactly when no nonblank line matches, with one line more than there are line breaks |
| Snapshot.FilterIsIdempotent | src/browser/real.ts:503-614 | filtering the result again with the same filter changes nothing whenever anything matched |
| Adoption.BrowserStore.DecideAdoption | src/browser/adoption.ts:80-180 | the decision and the whole new store are one step of the row |
| Adoption.BrowserStore.RecordLaunched | src/browser/adoption.ts:192-210 | the whole new store after a recorded launch |
| Adoption.BrowserStore.RecordLaunchFailed | src/browser/adoption.ts:220-235 | the whole new store after a recorded failure |
| Adoption.EveryReachableRowIsOk | src/browser/adoption.ts:106-175 | in every history a row has no process identifier exactly when stopped, and an endpoint and identity exactly when running |
| Adoption.GrantsAreSeparated | src/browser/adoption.ts:7-17 | between two launch grants of one browser there is always an attachment or a recorded outcome, over any interleaving of callers and browsers |
| Adoption.AtMostOneLaunchInFlight | src/browser/adoption.ts:141-178 | grants never exceed outcomes by more than one, and only while the row says starting |
| Adoption.GrantCondition | src/browser/adoption.ts:141-178 | exactly when a caller is told to launch, to wait and to attach, and to what |
| Adoption.StaleObserverRelaunches | src/browser/adoption.ts:73-79 | a history in which a stale observer is granted a launch over a running row |
| Adoption.StepFrame | src/browser/adoption.ts:107-129 | a step touches one row; attaching keeps a known process identifier; only a failure counts a restart |
| Adoption.RestartsCountFailures | src/browser/adoption.ts:229-229 | over any history the restart count is the number of recorded failures |
| Adoption.RunningRowIsAttested | src/browser/adoption.ts:121-139 | a running row names the endpoint and identity that the last step on it reported |
| Adoption.LaunchTimeIsLastOutcome | src/browser/adoption.ts:192-235 | over any history the launch time is that of the last recorded launch, and none after a recorded failure |
| Adoption.PidIsKnown | src/browser/adoption.ts:112-166 | where the process identifier in a row comes from |
| ColdStart.VerifiedMeansSameIdentity | src/browser/discovery.ts:196-285 | a record is trusted exactly when its endpoint answers with the identity it claims |
| ColdStart.Machine.KillSpawnedProcess | src/browser/launch.ts:375-383 | exactly the given process is signalled, and an error of the signal never comes out |
| ColdStart.ColdStartDetached | src/browser/launch.ts:414-620 | at most one spawn, and none when the request is refused or the set-up throws; a call with an identifier concludes as its turns say, and signals exactly that identifier exactly once when it refuses and nothing otherwise |
| ColdStart.Poll | src/browser/launch.ts:494-619 | the readiness loop and the checks after it conclude as the turns say |
| ColdStart.ConclusionIsUnique | src/browser/launch.ts:497-619 | a run of the environment has one conclusion |
| ColdStart.StartedIsVerifiedAndNew | src/browser/launch.ts:500-556 | a started browser answered with the identity its record claims, and the record is not the one from before the spawn |
| ColdStart.EscapesOnlyOnNull | src/browser/discovery.ts:234-261 | the call leaves without starting or refusing exactly when the loop reaches an endpoint that answers JSON null |
| ColdStart.NullReplyLeavesProcess | src/browser/discovery.ts:260-261 | a whole call after which the spawned process has been sent no signal and the call has neither started nor refused |
| ColdStart.StartsOrRefuses | src/browser/launch.ts:497-619 | a call with an identifier starts a browser exactly when it reaches an endpoint that confirms a new record, and refuses exactly when it reaches neither that nor a JSON null |
| ColdStart.FailureIsReported | src/browser/launch.ts:561-593 | a spawn failure known before anything answers is reported as one |
| ColdStart.CollisionIsReported | src/browser/launch.ts:511-554 | an answering browser that held the profile before is a collision |
| ColdStart.RefusalTellsReason | src/browser/launch.ts:510-619 | a collision is reported exactly when the earlier record is confirmed; a spawn failure only when the child reported one, and a missing endpoint only when it did not |
| Session.RealBrowserSession.Adopt | src/browser/real.ts:983-996 | adoption finds exactly an open page of that name that is not the keeper, and registers it under its own name |
| Session.RealBrowserSession.LookUp | src/browser/real.ts:1107-1124 | the page and the whole new session after a look-up |
| Session.RealBrowserSession.EnsureKeeperTab | src/browser/real.ts:1177-1197 | the whole new session after establishing the keeper |
| Session.RealBrowserSession.OpenTab | src/browser/real.ts:1126-1133 | the whole new session after opening a tab |
| Session.RealBrowserSession.ListTabs | src/browser/real.ts:1144-1161 | the handles and the whole new session after a listing |
| Session.RealBrowserSession.CloseTab | src/browser/real.ts:1269-1326 | the answer and the whole new session after a close |
| Session.EveryStateIsSane | src/browser/real.ts:927-932 | in every session, whatever happens in it, each map entry is keyed by its page's own identifier |
| Session.StepKeepsKeeper | src/browser/real.ts:1199-1207 | no operation, and no browser event but closing the keeper, closes it, replaces it or makes it reachable |
| Session.KeeperSurvivesSession | src/browser/real.ts:2666-2670 | from a new connection that establishes its keeper first, the keeper stays open and unreachable through every sequence of steps that does not close it from outside |
| Session.AnswersNeverNameKeeper | src/browser/real.ts:1107-1161 | in a state that guards the keeper, no answer names it or hands it over, and a listing names exactly the other open pages |
| Session.NoAnswerNamesKeeper | src/browser/real.ts:1144-1161 | over a whole session that establishes its keeper first and in which nothing closes it from outside, no answer names or hands over the keeper; listings and look-ups give exactly the other open pages |
| Session.ListingRegisters | src/browser/real.ts:1144-1161 | a listing registers every open page but the keeper under its own name, listens to it, forgets nothing and touches nothing else |
| Session.ListedThenClosed | src/browser/real.ts:1284-1289 | any name just listed, other than the keeper's handle, is answered closed by the next close of it, and its page leaves |
| Session.HandlesInOrder | src/browser/real.ts:1144-1161 | handles are listed in the browser's own order of its pages |
| Session.OpeningRegisters | src/browser/real.ts:1126-1133 | a tab just opened is open, blank, registered and listened to beside an open keeper, and closes by its name |
| Session.LookingUpRegisters | src/browser/real.ts:1107-1124 | a page that is found is registered and listened to under its name; a look-up that finds nothing changes nothing |
| Session.ClosingForgetsOne | src/browser/real.ts:1274-1325 | a close forgets exactly the name it was given, whatever it answers |
| Session.EnsuringIsIdempotent | src/browser/real.ts:1173-1196 | establishing the keeper twice is establishing it once, and a page is opened only when no keeper and no blank page is open |
| Session.CloseTellsTheTruth | src/browser/real.ts:1212-1233 | closed is answered exactly when the named page was open and has left; any other answer leaves the open pages alone |
| Session.CloseAnswers | src/browser/real.ts:1274-1325 | exactly when a close is not found and exactly when it is refused |
| Session.KeeperHandleIsRefused | src/browser/real.ts:1269-1272 | the keeper's own handle is refused and nothing changes |
| Session.CloseReachesKeeper | src/browser/real.ts:1234-1262 | a close reaches the keeper exactly when the page map holds it |
| Session.ReplacedKeeperCanBeClosed | src/browser/real.ts:1187-1194 | why the keeper must not be closed from outside: a run in which the next one is a caller's tab and is closed by name |
| NetworkLog.PageRecording.OnRequest | src/browser/real.ts:1041-1049 | the log describes the trace extended by the request, with a new last entry |
| NetworkLog.PageRecording.OnResponse | src/browser/real.ts:1050-1061 | the log describes the trace extended by the response |
| NetworkLog.PageRecording.OnRequestFailed | src/browser/real.ts:1062-1075 | the log describes the trace extended by the failure |
| NetworkLog.OutcomeMeans | src/browser/real.ts:1050-1075 | an outcome holds the answer's own status or reason and the time from the report to the answer |
| NetworkLog.EntriesAreStable | src/browser/real.ts:408-417 | a later read keeps every entry under its number, and an outcome once set never changes |
| NetworkLog.LineReadsBack | src/browser/real.ts:427-443 | a line carries its entry's number, and says PENDING exactly when the entry has no outcome |
| NetworkLog.LineShowsRequest | src/browser/real.ts:427-443 | behind its number a line gives the word for its entry's outcome, and behind that the entry's method and address and how it was settled |
| NetworkLog.DecimalReadsBack | src/browser/real.ts:427-443 | the milliseconds of a line can be read back, sign and all |
| NetworkLog.WrittenLogTellsTrace | src/browser/real.ts:427-501 | line k+1 of a written log is numbered k+1, gives the outcome the trace holds for the k-th request right behind its number and that request's method and address right behind that, and says PENDING exactly when the trace holds no outcome for it |
| NetworkLog.LogReadsBack | src/browser/real.ts:445-501 | one line a request, numbered from one without a gap, under a header whose tally is the number of PENDING lines |
| NetworkLog.HeaderReadsBack | src/browser/real.ts:487-492 | the total and the pending tally can be read back out of the header |
| ProfileMarker.CompareVersions | src/browser/profile-marker.ts:152-165 | the order is that of the first differing component, missing ones being zero |
| ProfileMarker.OlderIsTransitive | src/browser/profile-marker.ts:143-151 | older is transitive |
| ProfileMarker.OlderIsTotal | src/browser/profile-marker.ts:143-151 | any two versions are ordered one way, the other, or are one version |
| ProfileMarker.SameUpToTrailingZeros | src/browser/profile-marker.ts:157-159 | two lists are one version exactly when they differ only in trailing zeros |
| ProfileMarker.ProfileCompatibility | src/browser/profile-marker.ts:237-271 | a binary is turned away exactly for another recorded path or a recorded version it is older than |
| ProfileMarker.WhoIsTurnedAway | src/browser/profile-marker.ts:175-271 | spelled out: another path after resolving, on Windows without regard to case, or a version whose first difference from the recorded one is smaller |
| ProfileMarker.CompatibilityIsUpwardClosed | src/browser/profile-marker.ts:259-268 | for a fixed path and marker, no upgrade is turned away where a lower version was not |
| ProfileMarker.BothWaysMeansSameVersion | src/browser/profile-marker.ts:259-268 | two versions may open each other's profiles exactly when they are one version |
| Arguments.KeysAreValues | src/cli/adapter.ts:101-122 | a word holding a character no option name has is a value, even when it begins with two dashes |
| Arguments.ShapeOfOptions | src/cli/adapter.ts:192-210 | a word has the shape of an option exactly when it is two dashes, lower-case words joined by hyphens, and then nothing or an equals sign and anything |
| Arguments.EqualsFormIsRecorded | src/cli/adapter.ts:133-138 | the spelling with an equals sign records its value whatever its shape, and agrees with the two-word spelling when the value has not the shape of an option |
| Arguments.StrayWordIsSkipped | src/cli/adapter.ts:127-131 | a word that is no option and follows none is passed over |
| Arguments.RepeatedOption | src/cli/adapter.ts:152-186 | of a repeated option, field and path keep every value in order, and any other keeps the last |
| Arguments.EntryIsPrinted | src/cli/conformance-driver.ts:44-64 | what each kind of value prints |
| Arguments.ParseArguments | src/cli/adapter.ts:124-150 | the index loop reads the words as the recursive reading does |
| Arguments.ArgvFor | src/cli/conformance-driver.ts:36-70 | the printed words, refused exactly for a case that holds a structure, naming the first one |
| Arguments.ParseEntry | src/cli/adapter.ts:127-147 | whatever an entry holds, the parser is back in step at its end |
| Arguments.AmbiguousIsLost | src/cli/adapter.ts:140-144 | a value with the shape of an option is lost: its key is left with something else |
| Arguments.RoundTrip | src/cli/adapter.ts:124-210 | for every printable case, parsing what was printed gives exactly its arguments back if and only if no value has the shape of an option |
| Commands.LongestNameWins | src/cli/commands.ts:398-422 | the longest command the vector begins with is matched, whatever the table's order, and none exactly when it begins with none |
| Commands.OperationIsMatched | src/cli/commands.ts:405-419 | a command's words followed by options are matched to that command |
| Commands.TheTableIsOk | src/cli/commands.ts:25-382 | the commands of the table are distinct and none of their words is an option |
| Commands.NamesAreWordsJoined | src/cli/commands.ts:25-382 | every operation is named by its command's words joined by underscores |
| Commands.AttemptedSplits | src/cli/commands.ts:421-421 | a refusal quotes every word that does not begin with a dash, in order, and no other |
| Commands.PrintedCaseComesBack | src/cli/conformance-driver.ts:36-70 | for every command of the table and every printable case, the printed vector is matched to it, and the arguments come back exactly when no value has the shape of an option |
| Login.LoginRun.Finally | src/cli/login-command.ts:480-529 | the whole new state after unwinding |
| Login.LoginRun.OnInterrupt | src/cli/login-command.ts:390-428 | the whole new state after a signal |
| Login.EveryStateIsSound | src/cli/login-command.ts:384-529 | the handler is installed exactly inside the try block, and at most one call is made, for a browser that is signing in |
| Login.GivenBackExactlyOnce | src/cli/login-command.ts:365-531 | under every interleaving a begun sign-in is ended by exactly one call once the command is done or the process is ended, by the handler when a signal reached it and by the block otherwise |
| Login.ExitCodeTellsTheTruth | src/cli/login-command.ts:407-426 | the exit code after an interruption is 70 exactly when the browser was not given back, and otherwise 128 plus the number of the first signal |
| Login.AnswerDecides | src/cli/login-command.ts:400-428 | an accepted answer ends the sign-in and a refused one leaves it, and each ends the waiting side accordingly |
| Login.FirstSignalWins | src/cli/login-command.ts:390-400 | later signals change nothing |
| Login.FailureIsPassedOn | src/cli/login-command.ts:499-531 | the caller sees the window's own failure or the refusal to begin, never one from giving the browser back; no listener is left |
| Names.Reduce | src/artifacts/names.ts:94-110 | the character loop computes the specified part, of 1 to 48 safe characters with no hyphen at either end |
| Names.UnsafeRunIsOneHyphen | src/artifacts/names.ts:96-106 | a run of unsafe characters between two others becomes exactly one hyphen and everything else keeps its place |
| Names.PartIsPrefix | src/artifacts/names.ts:107-109 | a part is the beginning of the collapsed text, and all of it when it fits |
| Names.PartsAreFixed | src/artifacts/names.ts:79-110 | exactly the texts of that shape are left as they are |
| Names.LabelIsReduced | src/artifacts/names.ts:193-196 | a label that says something is reduced whole, and any other gives the stand-in |
| Names.IdentifierTellsApart | src/artifacts/names.ts:213-220 | two names made for identifiers of one length differ when what the identifiers reduce to does, whatever else they hold |
| Names.ReducingIsIdempotent | src/artifacts/names.ts:94-110 | reducing twice is reducing once |
| Names.QueryNeverReachesName | src/artifacts/names.ts:152-182 | nothing after the first question mark or hash of an address reaches the name, whether or not it parses: any two queries of one page give one name, as long as both addresses count as blank or neither does |
| Names.SameViewSortsByTime | src/artifacts/names.ts:198-220 | pictures of one view at one width have names that agree up to the stamp, page first, and for unequal stamps one name comes before the other in a listing exactly when its stamp is the earlier moment |
| Names.CaptureNamesAreFileNames | src/artifacts/names.ts:213-244 | every assembled name is one safe segment of at most 214 characters ending in .png |
| NameMarks.ColumnIsLength | src/artifacts/names.ts:96-107 | a letter or a digit always leaves one mark in the trimmed text, a hyphen only after the first of these, and an unsafe character only right behind one of these; nothing else leaves any |
| NameMarks.PartShows | src/artifacts/names.ts:94-110 | the letters and digits of a name are exactly those of the text, each at the column its marks give it, up to the forty-eighth |
| NameMarks.HostComesFirst | src/artifacts/names.ts:169-182 | the name of a page that parses begins with the name of its host, and of one that does not with its text up to the query |
| NameMarks.RunSurvives | src/artifacts/names.ts:82-86 | exactly when a name holds a run of hyphens |
| NameMarks.RunFromNothingTyped | src/artifacts/names.ts:82-86 | a text without a run whose name holds one |
| NameMarks.SameName | src/artifacts/names.ts:101-102 | exactly when two texts give one name |
| NameMarks.DifferentTextsOneName | src/artifacts/names.ts:101-102 | two texts that give one name |
| Store.UsableClaims | src/artifacts/store.ts:113-122 | exactly which claim identifiers are usable |
| Store.FoldersDiffer | src/artifacts/store.ts:69-86 | every kind has the folder of its own name |
| Store.AbsoluteMeans | src/artifacts/store.ts:169-180 | a name is absolute exactly when it begins with a separator of either spelling or with a drive |
| Store.WalkSplits | src/artifacts/store.ts:237-237 | resolving one way and then another is resolving both in one |
| Store.NameThenClimbCancels | src/artifacts/store.ts:237-237 | a name directly followed by two dots might as well not be there |
| Store.WalkByCounting | src/artifacts/store.ts:237-237 | a resolution climbs as often as climbs exceed names at the deepest point, and then keeps one segment for every name beyond the climbs that follow |
| Store.LocatedByCounting | src/artifacts/store.ts:283-297 | by counting climbs against names, a recorded path is served exactly when it is relative and whatever it climbs off the root it names again; one that never climbs more than it has named climbs nothing off |
| Store.ClimbingOutIsRefused | src/artifacts/store.ts:283-297 | one climb out of the root and into another name is refused |
| Store.ArtifactStore.Write | src/artifacts/store.ts:230-269 | a write is accepted exactly for a usable claim and a relative name that leads inside the root; it goes under the root, the recorded path spells out the steps from there, and that path leads back to it |
| Store.ArtifactStore.Locate | src/artifacts/store.ts:283-297 | a recorded path is served exactly when it is relative and leads inside the root; what is served lies under the root, and a plain path leads where it says |
| Store.StartsWithDots | src/artifacts/store.ts:239-253 | the textual test for climbing is exactly leaving the root or a first segment that begins with two dots |
| Store.EscapesMeans | src/artifacts/store.ts:239-253 | the three textual tests together let a name through exactly when it is relative and leads to a place under the root whose first step is neither a climb nor a drive |
| Store.AcceptedIsInside | src/artifacts/store.ts:271-297 | an accepted place lies under the root |
| Store.WrittenIsLocated | src/artifacts/store.ts:218-297 | for every accepted name, resolving the recorded path gives back the path written |
| Store.CapturesAreStored | src/artifacts/store.ts:200-297 | every assembled capture name is accepted for every usable claim, lands in the claim's images folder, and is found again |

## Left out

- Concurrency inside one session operation: each operation of `Session` is one atomic step, so browser events between its awaits are not interleaved with it.
- The library's list sort is replaced by an insertion sort; `Regions.ExtractionIsDetermined` shows that no other sort could give another list.
- Row states other than stopped, starting and running: sign-in transitions live in files that are not part of this model.
- SQL text, timestamps other than the launch time, and the file system: a transaction is one step, a write is where the bytes would go.
- Playwright calls, page verbs, secrets, masking, dialogs and console entries.
- The comparison library and PNG coding: an arbitrary alpha byte for every pixel, and decoded buffers.
- Floating point: scaling is exact, so a rounding error of a double near a half pixel is not captured.
- Dotted version texts: a version is the list of its components; turning text into numbers is not modelled, nor a component too large for a double.
- The path model has one namespace, with the forward slash as its separator; only the test for absolute names knows both spellings.
- A signal that arrives while no handler is installed ends the process at once and is not an event of `Login`.
- The sentences of explanations, refusals and instructions: only which one is chosen.
- Doctor checks, telemetry, feedback, help text, capture tiers and accounting.
