# Credits scroller of pacman-python, modelled in Dafny

This project models `credit()`, the scrolling credits routine of the large
Pac-Man game. It has three parts.

- **Layout.** The routine turns a block of text into a list of fragments
  (`foo`). Each line is split at its first backslash into a left and a right
  column. A part wrapped in underscores is flagged underlined and stripped of
  them. Each non-empty part becomes a fragment `[text, rect, underline]`. Its
  rectangle is sized by the font and placed one space height per line below
  the bottom of the screen. A left part is centred, or right-aligned three
  spaces left of the centre when the line has a backslash. A right part is
  left-aligned three spaces right of the centre.
- **Animation.** Every frame the scroll offset `y` drops by 10, moving the text up. The
  routine walks a copy of the list. A fragment whose moved rectangle has left
  the top of the screen makes the routine remove the *front* of the list. Any
  other fragment is rendered on first use, with the font's underline switched
  on, for it alone, when its own flag is set, and drawn. The frame stops after drawing the first fragment
  at or below the bottom of the screen. The animation runs while fragments
  remain and no quit event is pending.
- **Layers.** After the text, each frame flips the display and then draws the saved background, then the
  first image at `y + 650`, then the second image at `y + 2150`. The second
  image stops once it reaches the middle of the screen.

The files are:

- `rects.dfy`: pygame's integer `Rect` and the position setters the layout
  uses.
- `markup.dfy`: `splitlines`, `partition('\\')` and the underline rule with
  `strip('_')`.
- `layout.dfy`: the layout loop (`LayoutText`, one line per `AddLine`) and the function that specifies
  it (`Fragments`).
- `scroll.dfy`: three things.
  - A reference semantics of one frame (`Scan`), in which the removed fragment
    is the culled one.
  - The frame loop as written (`Visit`/`Walk`, run by the method
    `WalkFragments`), in which the front of the list is removed.
  - The `Animator` class, holding the routine's state between frames. It has
    methods `Frame` and `Run`, and `Credit` runs the whole routine.

The central result is about the `foo.pop(0)` in the frame loop. It removes the
front of the list, not the fragment that was found culled.

- `FrameScan` proves the two agree when fragment bottoms are non-decreasing
  along the list.
- `FrameRanks` proves that, in that case, the fragment removed at each
  removal is the one that was tested.
- `LayoutBottomsSorted` proves the layout gives non-decreasing bottoms when
  every text measures one space high, as it does with a single font.
- `FrameKeepsSorted` and `SortedAfterFrames` prove a frame keeps that order,
  so `EveryFramePopsTested` and `CreditFrames` extend both results to every
  frame of the animation, not only the first.
- Without that ordering, `FrameSwept`, `FrameRemains` and the bound in
  `Animator.Run` still hold.

## Model

| member | source | states |
|---|---|---|
| Markup.SplitLines | pacman-large/credits/credit.py:42 | the lines contain no line boundary, and the text has no lines exactly when it is empty; the lines' text is pinned by `SplitBreak` (any single boundary character), `SplitCrLf` (the two-character "\r\n"), `SplitJoin`, `SplitJoinLast` and `SplitOne` |
| Markup.SplitJoin | pacman-large/credits/credit.py:42 | splitting a text made of break-free lines, each followed by a newline, gives back exactly those lines |
| Markup.SplitJoinLast | pacman-large/credits/credit.py:42 | splitting break-free lines each followed by a newline, then a non-empty last line with no newline, gives back all of them, the last one included |
| Markup.SplitOne | pacman-large/credits/credit.py:42 | a non-empty text without a line boundary is exactly one line |
| Markup.SplitBreak | pacman-large/credits/credit.py:42 | a break-free line followed by any one of the boundary characters `splitlines` recognises (`\n`, a lone `\r`, `\v`, `\f`, `\x1c`-`\x1e`, `\x85`, U+2028, U+2029) is split off as the first line, and splitting goes on after that character; a `\r` that starts `\r\n` is excluded because the pair is one boundary (`SplitCrLf`) |
| Markup.SplitCrLf | pacman-large/credits/credit.py:42 | a break-free line followed by "\r\n" is split off as the first line, the pair counting as one boundary |
| Markup.Partition | pacman-large/credits/credit.py:43 | a backslash is found exactly when the line has one; then the line is left part, backslash, right part, and the left part has no backslash; otherwise the left part is the whole line and the right part is empty |
| Markup.Strip | pacman-large/credits/credit.py:47 | the part is its leading underscores, then the result, then only underscores; the result neither starts nor ends with an underscore |
| Markup.Style | pacman-large/credits/credit.py:44-48 | a part is flagged underlined exactly when it starts and ends with an underscore; then its text is the stripped part, strictly shorter; otherwise the text is the part unchanged (the same rule serves the right part, lines 55-59) |
| Markup.LoneUnderscore | pacman-large/credits/credit.py:45-48 | a part that is a single underscore gives an underlined fragment whose text is empty |
| Layout.GeometryOf | pacman-large/credits/credit.py:32-37 | the layout reads the screen's horizontal centre, its bottom (its height) and the measured size of a space |
| Layout.LeftFragment | pacman-large/credits/credit.py:44-53 | the left part's fragment holds its styled text and flag, is sized by measuring that text, has its top at the line's top, and is right-aligned to `Rleft` when the line has a backslash, centred otherwise |
| Layout.RightFragment | pacman-large/credits/credit.py:55-62 | the right part's fragment holds its styled text and flag, is sized by measuring that text, has its top at the line's top, and starts at `Rright` |
| Layout.LineFragments | pacman-large/credits/credit.py:43-62 | a line gives at most two fragments (see `Layout.LineColumns` for which) |
| Rects.Rect.Move | pacman-large/credits/credit.py:69 | moving keeps width and height and translates the corner by exactly the offset |
| Rects.SetTopRight | pacman-large/credits/credit.py:51 | the right edge and top go to the given point, and the size is kept |
| Rects.SetMidTop | pacman-large/credits/credit.py:53 | the horizontal centre and top go to the given point, and the size is kept |
| Rects.SetTopLeft | pacman-large/credits/credit.py:61 | the left edge and top go to the given point, and the size is kept |
| Layout.LineColumns | pacman-large/credits/credit.py:43-62 | a line gives one fragment per non-empty part, left before right, each with its styled text and flag; the left one is right-aligned to `Rleft` when the line has a backslash (even if nothing follows it) and centred otherwise; the right one starts at `Rright` |
| Layout.LineLaid | pacman-large/credits/credit.py:49-61 | each fragment of line `i` is unrendered, sized by measuring its own stored text, and has its top at the screen's bottom plus `i` space heights |
| Layout.Fragments | pacman-large/credits/credit.py:42-62 | the list has at most two fragments per line |
| Layout.FragmentsLaid | pacman-large/credits/credit.py:42-62 | every fragment is unrendered and sized from its own text, its top lies between the screen's bottom and the last line's top, and tops are non-decreasing along the list |
| Layout.LayoutText | pacman-large/credits/credit.py:35-62 | the loop appends the fragments of each line, in order, to an empty list: the result is `Fragments` of the text's lines |
| Layout.AddLine | pacman-large/credits/credit.py:43-62 | one pass of the loop appends exactly the fragments of that line (`LineFragments`) to the list and leaves the earlier entries as they were |
| Layout.LayoutBottomsSorted | pacman-large/credits/credit.py:42-62 | when every text measures one space high, bottoms are non-decreasing along the laid-out list |
| Scroll.Render | pacman-large/credits/credit.py:73-76 | drawing renders a text fragment once, underlined when its own flag or the font's setting asks for it, keeps its rectangle and flag, and leaves the font's underline off; a rendered fragment and the font are left as they are |
| Scroll.Scan | pacman-large/credits/credit.py:68-79 | the reference frame keeps no more fragments than it was given and draws no more than it keeps |
| Scroll.CullCount | pacman-large/credits/credit.py:69-72 | counts the longest prefix of fragments that are culled at offset `y` |
| Scroll.ScanDraws | pacman-large/credits/credit.py:68-79 | what a frame draws is the front of the list it leaves, each fragment rendered and at its rectangle moved by `y`, and none of them culled; a frame never turns the font's underline on |
| Scroll.CulledArePrefix | pacman-large/credits/credit.py:68-72 | with bottoms non-decreasing, the culled fragments are exactly a prefix of the list |
| Scroll.ScanDrops | pacman-large/credits/credit.py:68-72 | when the culled fragments are the first `c`, the frame's list is the old list without them, each kept fragment with its rectangle and flag, its text possibly rendered |
| Scroll.ScanDropsCulledPrefix | pacman-large/credits/credit.py:68-72 | with bottoms non-decreasing, a frame removes exactly the culled prefix and keeps the rest in order |
| Scroll.UndrawnAreBelow | pacman-large/credits/credit.py:77-79 | with tops non-decreasing, every fragment a frame keeps but does not draw starts at or below the screen's bottom |
| Scroll.ScanStops | pacman-large/credits/credit.py:77-79 | every fragment a frame draws before its last one starts above the screen's bottom; when the frame ends before the end of the list, it has drawn something and the last fragment drawn starts at or below the bottom: the first such fragment is drawn and ends the frame |
| Scroll.ScanLeavesTail | pacman-large/credits/credit.py:68-79 | the fragments a frame keeps but does not draw are the end of the given list exactly as they were: nothing after the fragment that stops the frame is examined, removed or rendered, so only drawn fragments are ever rendered |
| Scroll.ScanRendersOwnFlag | pacman-large/credits/credit.py:73-76 | with the font's underline off at the start, each fragment rendered in a frame is underlined exactly by its own flag, and the underline is off again at the end |
| Scroll.HalfScreen | pacman-large/credits/credit.py:39 | `half_screen` is the second image's top when it is centred vertically: it plus half the image's height is half the screen's height |
| Scroll.PhotoY | pacman-large/credits/credit.py:84-86 | the second image's y is the larger of `y + 2150` and `half_screen` |
| Scroll.PhotoHolds | pacman-large/credits/credit.py:84-86 | once the second image has reached `half_screen`, further scrolling leaves it there |
| Scroll.Layers | pacman-large/credits/credit.py:82-87 | after the text a frame draws the background, then the first image centred across at `y + 650`, then the second image centred across at `PhotoY`, the larger of `y + 2150` and `half_screen` |
| Scroll.Visit | pacman-large/credits/credit.py:68-79 | one step of the loop as written keeps the list as long as its copy minus the removals so far, and either draws the fragment at hand or removes one, never both |
| Scroll.VisitKeeps | pacman-large/credits/credit.py:68-79 | one step keeps `Swept`: removals record culled fragments, the list is the copy minus as many front fragments, drawn blits are rendered and not wholly above the screen, and the font never turns underline on |
| Scroll.Walk | pacman-large/credits/credit.py:68-79 | the rest of the loop, to the end of the copy or its early stop, keeps the list as long as the copy minus the removals, and each step of the copy draws or removes at most once |
| Scroll.FrameWalk | pacman-large/credits/credit.py:68-79 | one frame as written: the list loses exactly as many fragments as were removed, and draws plus removals are at most the list's length |
| Scroll.WalkKeeps | pacman-large/credits/credit.py:68-79 | the rest of the loop keeps `Swept`, whatever the order of the fragments |
| Scroll.WalkAllCulled | pacman-large/credits/credit.py:68-72 | when every remaining fragment is culled, the loop removes that many from the list |
| Scroll.WalkScan | pacman-large/credits/credit.py:68-79 | when the culled fragments are the first `c`, the loop as written from any step on ends where the reference frame does |
| Scroll.WalkRanks | pacman-large/credits/credit.py:68-72 | when the culled fragments are the first `c`, the loop removes fragment `i` at its step `i` |
| Scroll.FrameSwept | pacman-large/credits/credit.py:68-79 | a whole frame keeps `Swept`, whatever the order of the fragments |
| Scroll.FrameAllCulled | pacman-large/credits/credit.py:68-72 | a frame in which every fragment is culled empties the list |
| Scroll.FrameScan | pacman-large/credits/credit.py:68-79 | with bottoms non-decreasing, a frame of the loop as written leaves the same list, draws the same blits and leaves the same font setting as the reference frame |
| Scroll.FrameRanks | pacman-large/credits/credit.py:70-72 | with bottoms non-decreasing, the front fragment removed at each removal is the very fragment that was found culled |
| Scroll.FrameKeepsSorted | pacman-large/credits/credit.py:68-72 | a frame keeps bottoms non-decreasing: it removes only from the front and keeps every rectangle |
| Scroll.SortedAfterFrames | pacman-large/credits/credit.py:65-79 | a list with non-decreasing bottoms keeps them before every later frame |
| Scroll.EveryFramePopsTested | pacman-large/credits/credit.py:65-79 | with bottoms non-decreasing at the start, every frame of the animation, not only the first, pops the fragment it just tested and agrees with `Scan` |
| Scroll.CreditFrames | pacman-large/credits/credit.py:35-79 | for the laid-out credits text, when every text measures one space high, every frame pops the fragment it just tested and agrees with `Scan` |
| Scroll.FrameRemains | pacman-large/credits/credit.py:68-72 | a frame keeps the list a suffix of the laid-out one, shorter by the removals; if anything is left, the scroll has not passed the lowest laid-out bottom |
| Scroll.WalkFragments | pacman-large/credits/credit.py:68-79 | the loop with its copy, front removals, in-place rendering and early stop computes the list, blits, font setting and removal count of `FrameWalk` |
| Scroll.Animator.constructor | pacman-large/credits/credit.py:64 | the offset starts at 0 with the laid-out list, no removals and no frames |
| Scroll.Animator.Frame | pacman-large/credits/credit.py:66-87 | the offset goes down by exactly 10; the list, font setting, removals and blits are those of one `FrameWalk` pass followed by the layers; the class invariant is kept |
| Scroll.Animator.Run | pacman-large/credits/credit.py:65-87 | before each of the `n` frames the list was non-empty and no quit was pending; the loop ends with the list empty or a quit pending; the new list and font setting are those after `n` passes of `FrameWalk` (`AfterFrames`), the offset has dropped by 10 `n` times, and the removals grew by the list's shrinkage; at most the lowest laid-out bottom divided by 10, plus one, frames run |
| Scroll.Credit | pacman-large/credits/credit.py:35-87 | the routine lays out the text and animates it: before each of the `n` frames the list was non-empty and no quit was pending, the list left is that after `n` frames of the laid-out list, and it is empty unless a quit is pending; at most the lowest laid-out bottom divided by 10, plus one, frames run |

## Left out

- Drawing, the display, the frame clock (`clk.tick(40)`) and the saved background copy are not modelled as pixels. A frame returns the sequence of blits it would make, in order: `Draw`, `Background` and `Image`. `display.flip()` (line 81) falls between the text blits and the layer blits, so the layers a frame draws are not shown with its own text: they are on screen when the next frame draws its text over them, and are shown by that frame's flip (or by the final flip, line 88).
- The event queue (`event.peek(QUIT)`, `event.clear()`) is a sequence of booleans. Entry `k` says whether a quit is pending before frame `k`.
- Font measurement and rendering are abstract. `font_.size` is a `Measure` function passed in. A rendered surface is `Rendered(text, underlined)`. The font's underline switch is a boolean field, and its value when the routine starts is a parameter.
- The UTF-8 decoding attempt and the colour construction (lines 16-24) are not modelled. The text is taken as already decoded, and colour does not affect the model.
- `pacman_credits()` (lines 91-139) is configuration and asset loading only, and is not part of this model. `pacman-large/res/credit/rpm.py` is a configuration script, and is not part of this model either.
- Integers are unbounded. pygame keeps `Rect` coordinates in C ints, and their overflow is not modelled.
- `/` is floor division on non-negative sizes (Python 2). Python 3 would produce a float `half_screen`.
- `splitlines` follows Python's line boundaries for unicode text. The routine's UTF-8 decode (lines 16-19) sits in a `try` whose failure is ignored, so text that is not valid UTF-8 stays a byte string, whose `splitlines` recognises only `\n`, `\r` and `\r\n`. That byte-string path exists and is not modelled.
- Scroll.FrameScan, Scroll.FrameRanks, Scroll.CulledArePrefix: these hold only when fragment bottoms are non-decreasing along the list. The routine does not check this. It holds for the laid-out list when every text has the height of a space (`Layout.LayoutBottomsSorted`), and every frame keeps it (`Scroll.FrameKeepsSorted`, `Scroll.SortedAfterFrames`), so it holds before every frame of the animation (`Scroll.CreditFrames`). With fonts of mixed heights it is not promised.
