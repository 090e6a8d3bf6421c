/**
 * The scrolling loop of the credits routine: every frame the scroll offset
 * drops by ten pixels, moving the text up; fragments that have left the top of the screen are
 * dropped from the front of the list, the others are rendered on first use and
 * drawn, and the two images are placed as functions of the offset.
 */
module Scroll {
  import opened Rects
  import opened Layout

  /** Pixels the text moves up per frame (`y -= 10`). */
  const Step: nat := 10
  /** Offset of the first image from the scroll position. */
  const Image1Offset: int := 650
  /** Offset of the second image from the scroll position, before clamping. */
  const Image2Offset: int := 2150

  // ---------------------------------------------------------------------------
  // One frame, as the fragment list is meant to evolve
  // ---------------------------------------------------------------------------

  /** A fragment whose rectangle, moved by the scroll offset, ends above the screen. */
  predicate Culled(f: Fragment, y: int)
  {
    f.rect.Move(0, y).Bottom() < 0
  }

  /** What a frame puts on the screen, in drawing order. */
  datatype Blit = Draw(content: Content, rect: Rect) | Background | Image(layer: nat, x: int, y: int)

  /** The fragment list after a frame, what the frame drew and the font's underline setting. */
  datatype Pass = Pass(queue: seq<Fragment>, drawn: seq<Blit>, fontUnderline: bool)

  /**
   * Drawing a fragment for the first time renders its text, underlined when its
   * own flag asks for it (or the font was already set to underline), and leaves
   * the font's underline setting off; a rendered fragment is reused as it is.
   */
  function Render(f: Fragment, fontUnderline: bool): (r: (Fragment, bool))
    ensures r.0.rect == f.rect && r.0.underline == f.underline
    ensures r.0.content.Rendered? && r.0.content.s == f.content.s
    ensures f.content.Text? ==> r.0.content.underlined == (f.underline || fontUnderline) && !r.1
    ensures f.content.Rendered? ==> r == (f, fontUnderline)
  {
    match f.content
    case Text(s) => (f.(content := Rendered(s, f.underline || fontUnderline)), false)
    case Rendered(_, _) => (f, fontUnderline)
  }

  /**
   * Reference semantics of one frame over the fragment list `q` at offset `y`:
   * a culled fragment is removed (the very fragment that was tested); any other
   * is rendered if needed and drawn; the frame ends after drawing the first
   * fragment whose top is at or below the screen's bottom.
   */
  function Scan(q: seq<Fragment>, y: int, screenBottom: int, fontU: bool): (r: Pass)
    ensures |r.drawn| <= |r.queue| <= |q|
  {
    if q == [] then Pass([], [], fontU)
    else if Culled(q[0], y) then Scan(q[1..], y, screenBottom, fontU)
    else
      var (f, fu) := Render(q[0], fontU);
      var b := Draw(f.content, f.rect.Move(0, y));
      if f.rect.Move(0, y).top >= screenBottom then Pass([f] + q[1..], [b], fu)
      else
        var rest := Scan(q[1..], y, screenBottom, fu);
        Pass([f] + rest.queue, [b] + rest.drawn, rest.fontUnderline)
  }

  /** A frame's outcome when `kept` and `drawn` come before what the rest of it does. */
  function Then(kept: seq<Fragment>, drawn: seq<Blit>, rest: Pass): Pass
  {
    Pass(kept + rest.queue, drawn + rest.drawn, rest.fontUnderline)
  }

  /** `b` is `a` after any number of frames: same rectangle and flag, text possibly rendered. */
  predicate Advanced(a: Fragment, b: Fragment, fontU: bool)
  {
    b.rect == a.rect && b.underline == a.underline &&
    (b.content == a.content ||
     (a.content.Text? && b.content.Rendered? && b.content.s == a.content.s &&
      (b.content.underlined == a.underline || fontU)))
  }

  /** `kept` is `q` without its first `c` fragments, each kept with its rectangle and flag. */
  predicate KeptFrom(q: seq<Fragment>, c: nat, kept: seq<Fragment>, fontU: bool)
  {
    c <= |q| && |kept| == |q| - c &&
    forall k :: 0 <= k < |kept| ==> Advanced(q[c + k], kept[k], fontU)
  }

  /**
   * What a frame drew is the front of the list it leaves: each fragment at its
   * rectangle moved by `y`, rendered, and not culled.
   */
  predicate DrawnFront(r: Pass, y: int)
  {
    |r.drawn| <= |r.queue| &&
    forall k :: 0 <= k < |r.drawn| ==>
      r.drawn[k] == Draw(r.queue[k].content, r.queue[k].rect.Move(0, y)) &&
      r.queue[k].content.Rendered? && !Culled(r.queue[k], y)
  }

  /** Every fragment the frame kept but did not draw starts at or below `screenBottom`. */
  predicate UndrawnBelow(r: Pass, y: int, screenBottom: int)
  {
    forall k :: |r.drawn| <= k < |r.queue| ==> r.queue[k].rect.Move(0, y).top >= screenBottom
  }

  /** A rendered fragment carries underline exactly when its own flag says so. */
  predicate UnderlinedAsFlagged(f: Fragment)
  {
    f.content.Rendered? ==> f.content.underlined == f.underline
  }

  predicate AllUnderlinedAsFlagged(fs: seq<Fragment>)
  {
    forall j :: 0 <= j < |fs| ==> UnderlinedAsFlagged(fs[j])
  }

  /** The culled fragments of `q` are exactly its first `c`. */
  predicate CulledFirst(q: seq<Fragment>, y: int, c: nat)
  {
    forall j :: 0 <= j < |q| ==> (Culled(q[j], y) <==> j < c)
  }

  /** Length of the longest prefix of culled fragments. */
  function CullCount(q: seq<Fragment>, y: int): (c: nat)
    ensures c <= |q|
    ensures forall j :: 0 <= j < c ==> Culled(q[j], y)
    ensures c < |q| ==> !Culled(q[c], y)
  {
    if q == [] || !Culled(q[0], y) then 0 else 1 + CullCount(q[1..], y)
  }

  // ---------------------------------------------------------------------------
  // Properties of a frame
  // ---------------------------------------------------------------------------

  /** Whatever a frame drew is the front of the list it leaves; a frame never turns underlining on. */
  lemma {:induction false} ScanDraws(q: seq<Fragment>, y: int, screenBottom: int, fontU: bool)
    ensures DrawnFront(Scan(q, y, screenBottom, fontU), y)
    ensures Scan(q, y, screenBottom, fontU).fontUnderline ==> fontU
  {
    if q != [] {
      var r := Scan(q, y, screenBottom, fontU);
      if Culled(q[0], y) {
        assert r == Scan(q[1..], y, screenBottom, fontU);
        ScanDraws(q[1..], y, screenBottom, fontU);
      } else {
        var (f, fu) := Render(q[0], fontU);
        var b := Draw(f.content, f.rect.Move(0, y));
        assert f.rect == q[0].rect && f.content.Rendered? && (fu ==> fontU);
        if f.rect.Move(0, y).top < screenBottom {
          var rest := Scan(q[1..], y, screenBottom, fu);
          assert r == Pass([f] + rest.queue, [b] + rest.drawn, rest.fontUnderline);
          ScanDraws(q[1..], y, screenBottom, fu);
          forall k | 1 <= k < |r.drawn|
            ensures r.drawn[k] == Draw(r.queue[k].content, r.queue[k].rect.Move(0, y))
            ensures r.queue[k].content.Rendered? && !Culled(r.queue[k], y)
          {
            assert r.drawn[k] == rest.drawn[k - 1] && r.queue[k] == rest.queue[k - 1];
          }
        } else {
          assert r == Pass([f] + q[1..], [b], fu);
        }
      }
    }
  }

  /** With bottoms non-decreasing, the culled fragments are exactly a prefix of the list. */
  lemma CulledArePrefix(q: seq<Fragment>, y: int)
    requires BottomsSorted(q)
    ensures CulledFirst(q, y, CullCount(q, y))
  {
    var c := CullCount(q, y);
    forall j | c <= j < |q|
      ensures !Culled(q[j], y)
    {
      assert q[c].rect.Bottom() <= q[j].rect.Bottom();
    }
  }

  /**
   * With bottoms non-decreasing, a frame removes exactly the culled prefix and
   * keeps every other fragment, in order, with its rectangle and flag.
   */
  lemma ScanDropsCulledPrefix(q: seq<Fragment>, y: int, screenBottom: int, fontU: bool)
    requires BottomsSorted(q)
    ensures KeptFrom(q, CullCount(q, y), Scan(q, y, screenBottom, fontU).queue, fontU)
  {
    CulledArePrefix(q, y);
    ScanDrops(q, y, screenBottom, fontU, CullCount(q, y));
  }

  /** `ScanDropsCulledPrefix` for a list whose culled fragments are its first `c`. */
  lemma {:induction false} ScanDrops(q: seq<Fragment>, y: int, screenBottom: int, fontU: bool, c: nat)
    requires c <= |q| && CulledFirst(q, y, c)
    ensures KeptFrom(q, c, Scan(q, y, screenBottom, fontU).queue, fontU)
  {
    if q != [] {
      var r := Scan(q, y, screenBottom, fontU);
      assert forall j :: 0 <= j < |q| - 1 ==> q[1..][j] == q[j + 1];
      if Culled(q[0], y) {
        assert r == Scan(q[1..], y, screenBottom, fontU);
        ScanDrops(q[1..], y, screenBottom, fontU, c - 1);
      } else {
        var (f, fu) := Render(q[0], fontU);
        assert Advanced(q[0], f, fontU) && (fu ==> fontU);
        if f.rect.Move(0, y).top < screenBottom {
          var rest := Scan(q[1..], y, screenBottom, fu);
          assert r.queue == [f] + rest.queue;
          ScanDrops(q[1..], y, screenBottom, fu, 0);
          forall k | 1 <= k < |r.queue|
            ensures Advanced(q[k], r.queue[k], fontU)
          {
            assert r.queue[k] == rest.queue[k - 1];
          }
        } else {
          assert r.queue == [f] + q[1..];
        }
      }
    }
  }

  /**
   * With tops non-decreasing, a fragment that a frame keeps but does not draw
   * starts at or below the bottom of the screen: the early stop skips nothing
   * that would have been visible.
   */
  lemma {:induction false} UndrawnAreBelow(q: seq<Fragment>, y: int, screenBottom: int, fontU: bool)
    requires TopsSorted(q)
    ensures UndrawnBelow(Scan(q, y, screenBottom, fontU), y, screenBottom)
  {
    if q != [] {
      var r := Scan(q, y, screenBottom, fontU);
      assert TopsSorted(q[1..]) by {
        assert forall j :: 0 <= j < |q| - 1 ==> q[1..][j] == q[j + 1];
      }
      if Culled(q[0], y) {
        assert r == Scan(q[1..], y, screenBottom, fontU);
        UndrawnAreBelow(q[1..], y, screenBottom, fontU);
      } else {
        var (f, fu) := Render(q[0], fontU);
        var b := Draw(f.content, f.rect.Move(0, y));
        assert f.rect == q[0].rect;
        if f.rect.Move(0, y).top >= screenBottom {
          assert r == Pass([f] + q[1..], [b], fu);
          forall k | 1 <= k < |r.queue|
            ensures r.queue[k].rect.Move(0, y).top >= screenBottom
          {
            assert r.queue[k] == q[k];
            assert q[0].rect.top <= q[k].rect.top;
          }
        } else {
          var rest := Scan(q[1..], y, screenBottom, fu);
          assert r == Pass([f] + rest.queue, [b] + rest.drawn, rest.fontUnderline);
          UndrawnAreBelow(q[1..], y, screenBottom, fu);
          forall k | |r.drawn| <= k < |r.queue|
            ensures r.queue[k].rect.Move(0, y).top >= screenBottom
          {
            assert r.queue[k] == rest.queue[k - 1];
          }
        }
      }
    }
  }

  /**
   * When the font starts a frame with underlining off, every fragment rendered
   * in it is underlined exactly by its own flag, and the font ends the frame
   * with underlining off.
   */
  lemma {:induction false} ScanRendersOwnFlag(q: seq<Fragment>, y: int, screenBottom: int)
    requires AllUnderlinedAsFlagged(q)
    ensures !Scan(q, y, screenBottom, false).fontUnderline
    ensures AllUnderlinedAsFlagged(Scan(q, y, screenBottom, false).queue)
  {
    if q != [] {
      var r := Scan(q, y, screenBottom, false);
      assert AllUnderlinedAsFlagged(q[1..]) by {
        assert forall j :: 0 <= j < |q| - 1 ==> q[1..][j] == q[j + 1];
      }
      if Culled(q[0], y) {
        assert r == Scan(q[1..], y, screenBottom, false);
        ScanRendersOwnFlag(q[1..], y, screenBottom);
      } else {
        var (f, fu) := Render(q[0], false);
        var b := Draw(f.content, f.rect.Move(0, y));
        assert !fu && UnderlinedAsFlagged(f);
        if f.rect.Move(0, y).top >= screenBottom {
          assert r == Pass([f] + q[1..], [b], fu);
          forall k | 1 <= k < |r.queue| ensures UnderlinedAsFlagged(r.queue[k]) {
            assert r.queue[k] == q[k];
          }
        } else {
          var rest := Scan(q[1..], y, screenBottom, false);
          assert r == Pass([f] + rest.queue, [b] + rest.drawn, rest.fontUnderline);
          ScanRendersOwnFlag(q[1..], y, screenBottom);
          forall k | 1 <= k < |r.queue| ensures UnderlinedAsFlagged(r.queue[k]) {
            assert r.queue[k] == rest.queue[k - 1];
          }
        }
      }
    }
  }

  /**
   * The frame's early stop: every fragment drawn before the last one starts
   * above `screenBottom`, and when the frame ends before the end of the list the
   * last fragment drawn is the first one that starts at or below it.
   */
  predicate StopsAtBottom(r: Pass, y: int, screenBottom: int)
  {
    |r.drawn| <= |r.queue| &&
    (forall k :: 0 <= k < |r.drawn| - 1 ==> r.queue[k].rect.Move(0, y).top < screenBottom) &&
    (|r.drawn| < |r.queue| ==>
       0 < |r.drawn| && r.queue[|r.drawn| - 1].rect.Move(0, y).top >= screenBottom)
  }

  /** What the frame left after its last drawn fragment is the end of `q`, not even rendered. */
  predicate TailUntouched(q: seq<Fragment>, r: Pass)
  {
    |r.drawn| <= |r.queue| <= |q| &&
    (|r.drawn| < |r.queue| ==> r.queue[|r.drawn|..] == q[|q| - (|r.queue| - |r.drawn|)..])
  }

  /** A frame draws up to and including the first fragment at or below the screen's bottom. */
  lemma {:induction false} ScanStops(q: seq<Fragment>, y: int, screenBottom: int, fontU: bool)
    ensures StopsAtBottom(Scan(q, y, screenBottom, fontU), y, screenBottom)
  {
    if q != [] {
      var r := Scan(q, y, screenBottom, fontU);
      if Culled(q[0], y) {
        assert r == Scan(q[1..], y, screenBottom, fontU);
        ScanStops(q[1..], y, screenBottom, fontU);
      } else {
        var (f, fu) := Render(q[0], fontU);
        var b := Draw(f.content, f.rect.Move(0, y));
        if f.rect.Move(0, y).top >= screenBottom {
          assert r == Pass([f] + q[1..], [b], fu);
        } else {
          var rest := Scan(q[1..], y, screenBottom, fu);
          assert r == Pass([f] + rest.queue, [b] + rest.drawn, rest.fontUnderline);
          ScanStops(q[1..], y, screenBottom, fu);
          StopsCons(f, b, rest, y, screenBottom);
        }
      }
    }
  }

  /** Drawing a fragment above the bottom before a frame that stops at the bottom still stops there. */
  lemma StopsCons(f: Fragment, b: Blit, rest: Pass, y: int, screenBottom: int)
    requires f.rect.Move(0, y).top < screenBottom && StopsAtBottom(rest, y, screenBottom)
    ensures StopsAtBottom(Pass([f] + rest.queue, [b] + rest.drawn, rest.fontUnderline), y, screenBottom)
  {
    var r := Pass([f] + rest.queue, [b] + rest.drawn, rest.fontUnderline);
    forall k | 1 <= k < |r.drawn| - 1
      ensures r.queue[k].rect.Move(0, y).top < screenBottom
    {
      assert r.queue[k] == rest.queue[k - 1];
    }
    if |r.drawn| < |r.queue| {
      assert r.queue[|r.drawn| - 1] == rest.queue[|rest.drawn| - 1];
    }
  }

  /**
   * A frame examines nothing after the fragment that stops it: the fragments it
   * keeps but does not draw are the end of the list exactly as they were, never
   * rendered and never removed.
   */
  lemma {:induction false} ScanLeavesTail(q: seq<Fragment>, y: int, screenBottom: int, fontU: bool)
    ensures TailUntouched(q, Scan(q, y, screenBottom, fontU))
  {
    if q != [] {
      var r := Scan(q, y, screenBottom, fontU);
      if Culled(q[0], y) {
        assert r == Scan(q[1..], y, screenBottom, fontU);
        ScanLeavesTail(q[1..], y, screenBottom, fontU);
        TailAfterDrop(q, r);
      } else {
        var (f, fu) := Render(q[0], fontU);
        var b := Draw(f.content, f.rect.Move(0, y));
        if f.rect.Move(0, y).top >= screenBottom {
          assert r == Pass([f] + q[1..], [b], fu);
          TailAtStop(q, f, b, fu);
        } else {
          var rest := Scan(q[1..], y, screenBottom, fu);
          assert r == Pass([f] + rest.queue, [b] + rest.drawn, rest.fontUnderline);
          ScanLeavesTail(q[1..], y, screenBottom, fu);
          TailAfterDraw(q, f, b, rest);
        }
      }
    }
  }

  /** Removing the front fragment leaves the untouched tail an end of the whole list. */
  lemma TailAfterDrop(q: seq<Fragment>, r: Pass)
    requires q != [] && TailUntouched(q[1..], r)
    ensures TailUntouched(q, r)
  {
    if |r.drawn| < |r.queue| {
      var m := |r.queue| - |r.drawn|;
      assert q[1..][|q| - 1 - m..] == q[|q| - m..];
    }
  }

  /** Stopping at the front fragment leaves the rest of the list as it was. */
  lemma TailAtStop(q: seq<Fragment>, f: Fragment, b: Blit, fu: bool)
    requires q != []
    ensures TailUntouched(q, Pass([f] + q[1..], [b], fu))
  {
    assert ([f] + q[1..])[1..] == q[1..];
  }

  /** Drawing the front fragment and going on keeps the untouched tail an end of the whole list. */
  lemma TailAfterDraw(q: seq<Fragment>, f: Fragment, b: Blit, rest: Pass)
    requires q != [] && TailUntouched(q[1..], rest)
    ensures TailUntouched(q, Pass([f] + rest.queue, [b] + rest.drawn, rest.fontUnderline))
  {
    var r := Pass([f] + rest.queue, [b] + rest.drawn, rest.fontUnderline);
    if |r.drawn| < |r.queue| {
      var m := |r.queue| - |r.drawn|;
      assert r.queue[|r.drawn|..] == rest.queue[|rest.drawn|..];
      assert q[1..][|q| - 1 - m..] == q[|q| - m..];
    }
  }

  // ---------------------------------------------------------------------------
  // Image layers
  // ---------------------------------------------------------------------------

  /** `half_screen`: the second image's top when it is centred vertically on the screen. */
  function HalfScreen(screen: Size, image2: Size): (r: int)
    ensures r + image2.h / 2 == screen.h / 2
  {
    screen.h / 2 - image2.h / 2
  }

  /**
   * `photo_y`: the second image follows the scroll until it reaches the
   * middle of the screen, and then stays there; it is the larger of the two.
   */
  function PhotoY(y: int, halfScreen: int): (r: int)
    ensures r >= halfScreen && r >= y + Image2Offset
    ensures r == halfScreen || r == y + Image2Offset
  {
    var photoY := y + Image2Offset;
    if photoY < halfScreen then halfScreen else photoY
  }

  /** Once the second image has reached the middle of the screen, further scrolling leaves it there. */
  lemma PhotoHolds(y: int, y': int, halfScreen: int)
    requires y' <= y && PhotoY(y, halfScreen) == halfScreen
    ensures PhotoY(y', halfScreen) == halfScreen
  {
  }

  /** What is drawn after the fragments: the saved background, then the two images, centred across. */
  function Layers(y: int, screen: Size, image1: Size, image2: Size): (s: seq<Blit>)
    ensures |s| == 3 && s[0] == Background
    ensures s[1] == Image(1, screen.w / 2 - image1.w / 2, y + Image1Offset)
    ensures s[2] == Image(2, screen.w / 2 - image2.w / 2, PhotoY(y, HalfScreen(screen, image2)))
    ensures s[2].y >= HalfScreen(screen, image2) && s[2].y >= y + Image2Offset
  {
    [Background,
     Image(1, screen.w / 2 - image1.w / 2, y + Image1Offset),
     Image(2, screen.w / 2 - image2.w / 2, PhotoY(y, HalfScreen(screen, image2)))]
  }

  // ---------------------------------------------------------------------------
  // One frame, as the routine's loop runs it
  // ---------------------------------------------------------------------------

  /** The loop's state: the list, what it drew, the font, and the removals so far. */
  datatype Sweep = Sweep(queue: seq<Fragment>, drawn: seq<Blit>, fontUnderline: bool, culled: seq<nat>)

  /** A state of the loop over a copy `snap` of the list before its step `k`. */
  predicate Before(snap: seq<Fragment>, k: nat, s: Sweep)
  {
    |s.culled| <= k <= |snap| && |s.queue| == |snap| - |s.culled|
  }

  /**
   * Step `k` of the loop, as written: the list has lost `|culled|` fragments
   * from its FRONT, so the fragment at hand is `queue[k - |culled|]`. A culled
   * one makes the loop remove the front of the list (and records `k`); any
   * other is rendered if needed and drawn at its rectangle moved by `y`.
   */
  function Visit(snap: seq<Fragment>, y: int, k: nat, s: Sweep): (s': Sweep)
    requires Before(snap, k, s) && k < |snap|
    ensures Before(snap, k + 1, s')
    ensures |s'.drawn| + |s'.culled| == |s.drawn| + |s.culled| + 1
  {
    var r := snap[k].rect.Move(0, y);
    if r.Bottom() < 0 then Sweep(s.queue[1..], s.drawn, s.fontUnderline, s.culled + [k])
    else
      var i := k - |s.culled|;
      var (p, font) := Render(s.queue[i], s.fontUnderline);
      Sweep(s.queue[i := p], s.drawn + [Draw(p.content, r)], font, s.culled)
  }

  /** The loop ends after drawing a fragment whose top is at or below `bottom`. */
  predicate Stops(snap: seq<Fragment>, y: int, bottom: int, k: nat)
    requires k < |snap|
  {
    !Culled(snap[k], y) && snap[k].rect.Move(0, y).top >= bottom
  }

  /** The loop from step `k` on: through the end of the copy, or until it stops. */
  function Walk(snap: seq<Fragment>, y: int, bottom: int, k: nat, s: Sweep): (r: Sweep)
    requires Before(snap, k, s)
    ensures Before(snap, |snap|, r) && |s.culled| <= |r.culled|
    ensures |r.drawn| + |r.culled| <= |s.drawn| + |s.culled| + (|snap| - k)
    decreases |snap| - k
  {
    if k == |snap| then s
    else if Stops(snap, y, bottom, k) then Visit(snap, y, k, s)
    else Walk(snap, y, bottom, k + 1, Visit(snap, y, k, s))
  }

  /** One frame of the loop over the list `q` at offset `y`, the font starting at `f0`. */
  function FrameWalk(q: seq<Fragment>, y: int, bottom: int, f0: bool): (r: Sweep)
    ensures |r.queue| == |q| - |r.culled| && |r.drawn| + |r.culled| <= |q|
  {
    Walk(q, y, bottom, 0, Sweep(q, [], f0, []))
  }

  /** A blit of a fragment that is on screen or below it, already rendered. */
  predicate Shown(b: Blit)
  {
    b.Draw? && b.content.Rendered? && b.rect.Bottom() >= 0
  }

  /**
   * What the loop keeps true of its state: each removal records a culled
   * fragment found no earlier than its own rank; the list is the copy minus as
   * many fragments from the front, each with its rectangle and flag; everything
   * drawn is shown; the font underlines only if it did when the frame began.
   */
  predicate Swept(snap: seq<Fragment>, y: int, s: Sweep, f0: bool)
  {
    KeptFrom(snap, |s.culled|, s.queue, f0) &&
    (forall i :: 0 <= i < |s.culled| ==> i <= s.culled[i] < |snap| && Culled(snap[s.culled[i]], y)) &&
    (forall m :: 0 <= m < |s.drawn| ==> Shown(s.drawn[m])) &&
    (s.fontUnderline ==> f0)
  }

  lemma VisitKeeps(snap: seq<Fragment>, y: int, k: nat, s: Sweep, f0: bool)
    requires Before(snap, k, s) && k < |snap| && Swept(snap, y, s, f0)
    ensures Swept(snap, y, Visit(snap, y, k, s), f0)
  {
    var s' := Visit(snap, y, k, s);
    if Culled(snap[k], y) {
      assert s' == Sweep(s.queue[1..], s.drawn, s.fontUnderline, s.culled + [k]);
      forall j | 0 <= j < |s'.queue|
        ensures Advanced(snap[|s'.culled| + j], s'.queue[j], f0)
      {
        assert s'.queue[j] == s.queue[j + 1];
      }
    } else {
      var i := k - |s.culled|;
      var (p, font) := Render(s.queue[i], s.fontUnderline);
      assert s' == Sweep(s.queue[i := p], s.drawn + [Draw(p.content, snap[k].rect.Move(0, y))], font, s.culled);
      assert Advanced(snap[|s.culled| + i], s.queue[i], f0);
      assert Advanced(snap[|s.culled| + i], p, f0);
    }
  }

  /** The loop keeps `Swept` to its end, whatever the order of the fragments. */
  lemma {:induction false} WalkKeeps(snap: seq<Fragment>, y: int, bottom: int, k: nat, s: Sweep, f0: bool)
    requires Before(snap, k, s) && Swept(snap, y, s, f0)
    ensures Swept(snap, y, Walk(snap, y, bottom, k, s), f0)
    decreases |snap| - k
  {
    if k < |snap| {
      VisitKeeps(snap, y, k, s, f0);
      if !Stops(snap, y, bottom, k) {
        WalkKeeps(snap, y, bottom, k + 1, Visit(snap, y, k, s), f0);
      }
    }
  }

  /** When every fragment from `k` on is culled, the loop removes that many from the list. */
  lemma {:induction false} WalkAllCulled(snap: seq<Fragment>, y: int, bottom: int, k: nat, s: Sweep)
    requires Before(snap, k, s)
    requires forall j :: k <= j < |snap| ==> Culled(snap[j], y)
    ensures |Walk(snap, y, bottom, k, s).queue| == |s.queue| - (|snap| - k)
    decreases |snap| - k
  {
    if k < |snap| {
      WalkAllCulled(snap, y, bottom, k + 1, Visit(snap, y, k, s));
    }
  }

  /** Step `k` of the loop on a culled fragment, with nothing kept yet, and what `Scan` does with it. */
  lemma CullAgrees(snap: seq<Fragment>, y: int, bottom: int, k: nat, drawn: seq<Blit>, font: bool, culled: seq<nat>)
    requires |culled| == k < |snap| && Culled(snap[k], y)
    ensures Walk(snap, y, bottom, k, Sweep(snap[k..], drawn, font, culled))
         == Walk(snap, y, bottom, k + 1, Sweep(snap[k + 1..], drawn, font, culled + [k]))
    ensures Scan(snap[k..], y, bottom, font) == Scan(snap[k + 1..], y, bottom, font)
  {
    var q := snap[k..];
    assert q[0] == snap[k] && q[1..] == snap[k + 1..];
    assert Visit(snap, y, k, Sweep(q, drawn, font, culled)) == Sweep(snap[k + 1..], drawn, font, culled + [k]);
  }

  /** Step `k` of the loop on a fragment it draws, with `kept` kept so far. */
  lemma DrawVisit(snap: seq<Fragment>, y: int, k: nat, kept: seq<Fragment>, drawn: seq<Blit>,
                  font: bool, culled: seq<nat>)
    requires |culled| <= k < |snap| && |kept| == k - |culled| && !Culled(snap[k], y)
    ensures var (p, font') := Render(snap[k], font);
      Visit(snap, y, k, Sweep(kept + snap[k..], drawn, font, culled))
        == Sweep((kept + [p]) + snap[k + 1..], drawn + [Draw(p.content, snap[k].rect.Move(0, y))], font', culled)
  {
    var q := snap[k..];
    assert q[0] == snap[k] && q[1..] == snap[k + 1..];
    var (p, font') := Render(snap[k], font);
    assert (kept + q)[|kept|] == snap[k];
    assert (kept + q)[|kept| := p] == (kept + [p]) + snap[k + 1..];
  }

  /** From step `k` on, with `kept` kept and `drawn` drawn so far, the loop ends where `Scan` does. */
  predicate Agrees(snap: seq<Fragment>, y: int, bottom: int, k: nat, kept: seq<Fragment>, drawn: seq<Blit>,
                   font: bool, culled: seq<nat>)
    requires |culled| <= k <= |snap| && |kept| == k - |culled|
  {
    var w := Walk(snap, y, bottom, k, Sweep(kept + snap[k..], drawn, font, culled));
    Pass(w.queue, w.drawn, w.fontUnderline) == Then(kept, drawn, Scan(snap[k..], y, bottom, font))
  }

  /** The loop's last step, on the first fragment at or below the bottom, ends where `Scan` does. */
  lemma DrawStops(snap: seq<Fragment>, y: int, bottom: int, k: nat, kept: seq<Fragment>, drawn: seq<Blit>,
                  font: bool, culled: seq<nat>)
    requires |culled| <= k < |snap| && |kept| == k - |culled| && Stops(snap, y, bottom, k)
    ensures Agrees(snap, y, bottom, k, kept, drawn, font, culled)
  {
    DrawVisit(snap, y, k, kept, drawn, font, culled);
    var q := snap[k..];
    assert q[0] == snap[k] && q[1..] == snap[k + 1..];
    var (p, font') := Render(snap[k], font);
    var b := Draw(p.content, snap[k].rect.Move(0, y));
    assert Scan(q, y, bottom, font) == Pass([p] + snap[k + 1..], [b], font');
    assert kept + ([p] + snap[k + 1..]) == (kept + [p]) + snap[k + 1..];
  }

  /** A step of the loop that draws and goes on agrees with `Scan` if the rest of the loop does. */
  lemma DrawGoesOn(snap: seq<Fragment>, y: int, bottom: int, k: nat, kept: seq<Fragment>, drawn: seq<Blit>,
                   font: bool, culled: seq<nat>)
    requires |culled| <= k < |snap| && |kept| == k - |culled| && !Culled(snap[k], y) && !Stops(snap, y, bottom, k)
    requires var (p, font') := Render(snap[k], font);
      Agrees(snap, y, bottom, k + 1, kept + [p], drawn + [Draw(p.content, snap[k].rect.Move(0, y))], font', culled)
    ensures Agrees(snap, y, bottom, k, kept, drawn, font, culled)
  {
    DrawVisit(snap, y, k, kept, drawn, font, culled);
    var q := snap[k..];
    assert q[0] == snap[k] && q[1..] == snap[k + 1..];
    var (p, font') := Render(snap[k], font);
    var b := Draw(p.content, snap[k].rect.Move(0, y));
    var rest := Scan(snap[k + 1..], y, bottom, font');
    assert Scan(q, y, bottom, font) == Pass([p] + rest.queue, [b] + rest.drawn, rest.fontUnderline);
    assert kept + ([p] + rest.queue) == (kept + [p]) + rest.queue;
    assert drawn + ([b] + rest.drawn) == (drawn + [b]) + rest.drawn;
  }

  /** A step of the loop that removes a culled front fragment agrees with `Scan` if the rest does. */
  lemma CullGoesOn(snap: seq<Fragment>, y: int, bottom: int, k: nat, drawn: seq<Blit>, font: bool, culled: seq<nat>)
    requires |culled| == k < |snap| && Culled(snap[k], y)
    requires Agrees(snap, y, bottom, k + 1, [], drawn, font, culled + [k])
    ensures Agrees(snap, y, bottom, k, [], drawn, font, culled)
  {
    CullAgrees(snap, y, bottom, k, drawn, font, culled);
    assert [] + snap[k..] == snap[k..] && [] + snap[k + 1..] == snap[k + 1..];
  }

  /**
   * When the culled fragments are the first `c`, removing the front fragment is
   * removing the culled one: from step `k` on, with `kept` kept so far, the
   * loop as written does what `Scan` describes.
   */
  lemma {:induction false} WalkScan(snap: seq<Fragment>, y: int, bottom: int, c: nat, k: nat,
                                    kept: seq<Fragment>, drawn: seq<Blit>, font: bool, culled: seq<nat>)
    requires CulledFirst(snap, y, c)
    requires |culled| <= k <= |snap| && |kept| == k - |culled| && (kept != [] ==> c <= k)
    ensures Agrees(snap, y, bottom, k, kept, drawn, font, culled)
    decreases |snap| - k
  {
    if k == |snap| {
      assert kept + snap[k..] == kept && snap[k..] == [];
    } else if Culled(snap[k], y) {
      assert kept == [];
      WalkScan(snap, y, bottom, c, k + 1, [], drawn, font, culled + [k]);
      CullGoesOn(snap, y, bottom, k, drawn, font, culled);
    } else if Stops(snap, y, bottom, k) {
      DrawStops(snap, y, bottom, k, kept, drawn, font, culled);
    } else {
      var (p, font') := Render(snap[k], font);
      var b := Draw(p.content, snap[k].rect.Move(0, y));
      WalkScan(snap, y, bottom, c, k + 1, kept + [p], drawn + [b], font', culled);
      DrawGoesOn(snap, y, bottom, k, kept, drawn, font, culled);
    }
  }

  /** Each removal is recorded at its own rank: fragment `i` is removed at step `i`. */
  predicate Ranked(culled: seq<nat>)
  {
    forall i :: 0 <= i < |culled| ==> culled[i] == i
  }

  /** When the culled fragments are the first `c`, the loop removes fragment `i` at its step `i`. */
  lemma {:induction false} WalkRanks(snap: seq<Fragment>, y: int, bottom: int, c: nat, k: nat, s: Sweep)
    requires CulledFirst(snap, y, c)
    requires Before(snap, k, s) && |s.culled| == (if k < c then k else c) && Ranked(s.culled)
    ensures Ranked(Walk(snap, y, bottom, k, s).culled)
    decreases |snap| - k
  {
    if k < |snap| {
      var s' := Visit(snap, y, k, s);
      if Culled(snap[k], y) {
        assert s'.culled == s.culled + [k];
      } else {
        assert s'.culled == s.culled;
      }
      if Stops(snap, y, bottom, k) {
        assert Walk(snap, y, bottom, k, s) == s';
      } else {
        WalkRanks(snap, y, bottom, c, k + 1, s');
      }
    }
  }

  /** One whole frame of the loop as written keeps `Swept`, whatever the order of the fragments. */
  lemma FrameSwept(q: seq<Fragment>, y: int, bottom: int, f0: bool)
    ensures Swept(q, y, FrameWalk(q, y, bottom, f0), f0)
  {
    WalkKeeps(q, y, bottom, 0, Sweep(q, [], f0, []), f0);
  }

  /** A frame in which every fragment is culled empties the list, whatever their order. */
  lemma FrameAllCulled(q: seq<Fragment>, y: int, bottom: int, f0: bool)
    requires forall j :: 0 <= j < |q| ==> Culled(q[j], y)
    ensures FrameWalk(q, y, bottom, f0).queue == []
  {
    WalkAllCulled(q, y, bottom, 0, Sweep(q, [], f0, []));
  }

  /** With bottoms non-decreasing, one frame of the loop as written does what `Scan` describes. */
  lemma FrameScan(q: seq<Fragment>, y: int, bottom: int, f0: bool)
    requires BottomsSorted(q)
    ensures var w := FrameWalk(q, y, bottom, f0);
      Scan(q, y, bottom, f0) == Pass(w.queue, w.drawn, w.fontUnderline)
  {
    CulledArePrefix(q, y);
    WalkScan(q, y, bottom, CullCount(q, y), 0, [], [], f0, []);
    AgreesFromStart(q, y, bottom, f0);
  }

  /** `Agrees` at the loop's first step is the agreement of a whole frame. */
  lemma AgreesFromStart(q: seq<Fragment>, y: int, bottom: int, f0: bool)
    requires Agrees(q, y, bottom, 0, [], [], f0, [])
    ensures var w := FrameWalk(q, y, bottom, f0);
      Scan(q, y, bottom, f0) == Pass(w.queue, w.drawn, w.fontUnderline)
  {
    assert [] + q[0..] == q;
    var sc := Scan(q, y, bottom, f0);
    assert [] + sc.queue == sc.queue && [] + sc.drawn == sc.drawn;
  }

  /**
   * With bottoms non-decreasing, one frame of the loop as written removes
   * fragment `i` at its step `i`: each removal takes off the very fragment
   * that was found culled.
   */
  lemma FrameRanks(q: seq<Fragment>, y: int, bottom: int, f0: bool)
    requires BottomsSorted(q)
    ensures Ranked(FrameWalk(q, y, bottom, f0).culled)
  {
    CulledArePrefix(q, y);
    WalkRanks(q, y, bottom, CullCount(q, y), 0, Sweep(q, [], f0, []));
  }

  // ---------------------------------------------------------------------------
  // The animation
  // ---------------------------------------------------------------------------

  function RectsOf(fs: seq<Fragment>): (rs: seq<Rect>)
    ensures |rs| == |fs| && forall j :: 0 <= j < |fs| ==> rs[j] == fs[j].rect
  {
    seq(|fs|, j requires 0 <= j < |fs| => fs[j].rect)
  }

  /** The lowest bottom among `rs`, and at least 0. */
  function MaxBottom(rs: seq<Rect>): (m: int)
    ensures m >= 0
    ensures forall j :: 0 <= j < |rs| ==> rs[j].Bottom() <= m
  {
    if rs == [] then 0 else Max(rs[0].Bottom(), MaxBottom(rs[1..]))
  }

  /** The list holds, in order, the laid-out rectangles from index `popped` on. */
  predicate Remains(queue: seq<Fragment>, initial: seq<Rect>, popped: nat)
  {
    popped <= |initial| && |queue| == |initial| - popped &&
    forall j :: 0 <= j < |queue| ==> queue[j].rect == initial[popped + j]
  }

  /**
   * A frame keeps the list a suffix of the laid-out one, shorter by the
   * removals; and if anything is left, some fragment was not culled, so the
   * scroll has not passed the lowest laid-out bottom.
   */
  lemma FrameRemains(q: seq<Fragment>, initial: seq<Rect>, popped: nat, y: int, bottom: int, f0: bool)
    requires Remains(q, initial, popped)
    ensures Remains(FrameWalk(q, y, bottom, f0).queue, initial, popped + |FrameWalk(q, y, bottom, f0).culled|)
    ensures FrameWalk(q, y, bottom, f0).queue != [] ==> -y <= MaxBottom(initial)
  {
    var w := FrameWalk(q, y, bottom, f0);
    FrameSwept(q, y, bottom, f0);
    forall j | 0 <= j < |w.queue|
      ensures w.queue[j].rect == initial[popped + |w.culled| + j]
    {
      assert Advanced(q[|w.culled| + j], w.queue[j], f0);
    }
    if w.queue != [] {
      if forall j :: 0 <= j < |q| ==> Culled(q[j], y) {
        FrameAllCulled(q, y, bottom, f0);
      }
      var j :| 0 <= j < |q| && !Culled(q[j], y);
      assert q[j].rect == initial[popped + j];
    }
  }

  /**
   * The pass over the fragment list in one frame (lines 68-81): walks a copy
   * of the list, removing the FRONT fragment whenever the fragment at hand is
   * culled, rendering and drawing the others, and stopping after the first one
   * at or below `bottom`. It returns the new list, what it drew, the font's
   * underline setting and the number of removals, as `FrameWalk` describes.
   */
  method WalkFragments(queue: seq<Fragment>, y: int, bottom: int, fontUnderline: bool)
    returns (foo: seq<Fragment>, drawn: seq<Blit>, font: bool, pops: nat)
    ensures var w := FrameWalk(queue, y, bottom, fontUnderline);
      foo == w.queue && drawn == w.drawn && font == w.fontUnderline && pops == |w.culled|
  {
    foo, font := queue, fontUnderline;
    var snap := foo;
    drawn := [];
    var k := 0;
    pops := 0;
    var stop := false;
    ghost var tested: seq<nat> := [];
    ghost var w := FrameWalk(snap, y, bottom, font);
    while k < |snap| && !stop
      invariant pops == |tested| && Before(snap, k, Sweep(foo, drawn, font, tested))
      invariant !stop ==> w == Walk(snap, y, bottom, k, Sweep(foo, drawn, font, tested))
      invariant stop ==> w == Sweep(foo, drawn, font, tested)
      decreases |snap| - k
    {
      ghost var s := Sweep(foo, drawn, font, tested);
      var r := snap[k].rect.Move(0, y);
      if r.Bottom() < 0 {
        foo := foo[1..];
        pops := pops + 1;
        tested := tested + [k];
      } else {
        var p := foo[k - pops];
        if p.content.Text? {
          if p.underline {
            font := true;
          }
          p := p.(content := Rendered(p.content.s, font));
          foo := foo[k - pops := p];
          font := false;
        } else {
          assert foo[k - pops := p] == foo;
        }
        drawn := drawn + [Draw(p.content, r)];
        if r.top >= bottom {
          stop := true;
        }
      }
      assert Sweep(foo, drawn, font, tested) == Visit(snap, y, k, s);
      k := k + 1;
    }
  }

  /** Whether a quit event is pending when the loop test runs before frame `k`. */
  predicate QuitPending(quits: seq<bool>, k: nat)
  {
    k < |quits| && quits[k]
  }

  /** The fragment list and the font's underline setting between frames. */
  datatype Scrolled = Scrolled(queue: seq<Fragment>, fontUnderline: bool)

  /**
   * The list and font setting after `n` frames from `q` and `f0` at offset
   * `y0`: frame `j`, counting from 1, makes one pass at offset `y0 - Step * j`.
   */
  function AfterFrames(q: seq<Fragment>, f0: bool, y0: int, bottom: int, n: nat): Scrolled
  {
    if n == 0 then Scrolled(q, f0)
    else
      var s := AfterFrames(q, f0, y0, bottom, n - 1);
      var w := FrameWalk(s.queue, y0 - Step * n, bottom, s.fontUnderline);
      Scrolled(w.queue, w.fontUnderline)
  }

  /** No quit was pending before any of the first `n` frames. */
  predicate NoQuitBefore(quits: seq<bool>, n: nat)
  {
    forall k :: 0 <= k < n ==> !QuitPending(quits, k)
  }

  /** The list was non-empty before each of the first `n` frames. */
  predicate NonEmptyBefore(q: seq<Fragment>, f0: bool, y0: int, bottom: int, n: nat)
  {
    forall k :: 0 <= k < n ==> AfterFrames(q, f0, y0, bottom, k).queue != []
  }

  /** Frame `n + 1` is one pass, at the offset dropped `n + 1` times, over the state after `n` frames. */
  lemma AfterFramesStep(q: seq<Fragment>, f0: bool, y0: int, bottom: int, n: nat)
    ensures var s := AfterFrames(q, f0, y0, bottom, n);
      var w := FrameWalk(s.queue, y0 - Step * n - Step, bottom, s.fontUnderline);
      AfterFrames(q, f0, y0, bottom, n + 1) == Scrolled(w.queue, w.fontUnderline)
  {
    assert Step * (n + 1) == Step * n + Step;
  }

  lemma NonEmptyStep(q: seq<Fragment>, f0: bool, y0: int, bottom: int, n: nat)
    requires NonEmptyBefore(q, f0, y0, bottom, n) && AfterFrames(q, f0, y0, bottom, n).queue != []
    ensures NonEmptyBefore(q, f0, y0, bottom, n + 1)
  {
  }

  /** A frame keeps bottoms non-decreasing: it only removes fragments from the front and keeps every rectangle. */
  lemma FrameKeepsSorted(q: seq<Fragment>, y: int, bottom: int, f0: bool)
    requires BottomsSorted(q)
    ensures BottomsSorted(FrameWalk(q, y, bottom, f0).queue)
  {
    var w := FrameWalk(q, y, bottom, f0);
    FrameSwept(q, y, bottom, f0);
    var c := |w.culled|;
    forall i, j | 0 <= i <= j < |w.queue|
      ensures w.queue[i].rect.Bottom() <= w.queue[j].rect.Bottom()
    {
      assert Advanced(q[c + i], w.queue[i], f0) && Advanced(q[c + j], w.queue[j], f0);
    }
  }

  /** Bottoms non-decreasing in the list the animation starts from stay so before every later frame. */
  lemma {:induction false} SortedAfterFrames(q: seq<Fragment>, f0: bool, y0: int, bottom: int, n: nat)
    requires BottomsSorted(q)
    ensures BottomsSorted(AfterFrames(q, f0, y0, bottom, n).queue)
  {
    if n > 0 {
      SortedAfterFrames(q, f0, y0, bottom, n - 1);
      var s := AfterFrames(q, f0, y0, bottom, n - 1);
      FrameKeepsSorted(s.queue, y0 - Step * n, bottom, s.fontUnderline);
    }
  }

  /**
   * Frame `k + 1` of the animation from `q` removes at each removal the
   * fragment it found culled, and does what `Scan` describes.
   */
  predicate PopsTested(q: seq<Fragment>, f0: bool, y0: int, bottom: int, k: nat)
  {
    var s := AfterFrames(q, f0, y0, bottom, k);
    var w := FrameWalk(s.queue, y0 - Step * (k + 1), bottom, s.fontUnderline);
    Ranked(w.culled) && Scan(s.queue, y0 - Step * (k + 1), bottom, s.fontUnderline) == Pass(w.queue, w.drawn, w.fontUnderline)
  }

  /**
   * With bottoms non-decreasing at the start, frame `k + 1` of the animation,
   * and not only the first, removes at each removal the very fragment it found
   * culled, and does what `Scan` describes.
   */
  lemma EveryFramePopsTested(q: seq<Fragment>, f0: bool, y0: int, bottom: int, k: nat)
    requires BottomsSorted(q)
    ensures PopsTested(q, f0, y0, bottom, k)
  {
    var s := AfterFrames(q, f0, y0, bottom, k);
    SortedAfterFrames(q, f0, y0, bottom, k);
    FrameRanks(s.queue, y0 - Step * (k + 1), bottom, s.fontUnderline);
    FrameScan(s.queue, y0 - Step * (k + 1), bottom, s.fontUnderline);
  }

  /**
   * For the credits routine itself (the laid-out text, the offset starting at
   * 0), when every text measures one space high, every frame pops the tested
   * fragment and agrees with `Scan`.
   */
  lemma CreditFrames(text: string, measure: Measure, screen: Size, f0: bool, k: nat)
    requires UniformHeight(measure)
    ensures PopsTested(Fragments(Markup.SplitLines(text), GeometryOf(measure, screen), measure), f0, 0, screen.h, k)
  {
    var lines := Markup.SplitLines(text);
    LayoutBottomsSorted(lines, GeometryOf(measure, screen), measure);
    EveryFramePopsTested(Fragments(lines, GeometryOf(measure, screen), measure), f0, 0, screen.h, k);
  }

  /** The state of the credits routine between frames. */
  class Animator {
    /** The scroll offset (`y`). */
    var y: int
    /** The fragment list (`foo`). */
    var queue: seq<Fragment>
    /** The font's underline setting. */
    var fontUnderline: bool
    const screen: Size
    const image1: Size
    const image2: Size

    /** The rectangles of the fragment list as laid out. */
    ghost const initial: seq<Rect>
    /** How many fragments have been removed so far. */
    ghost var popped: nat
    /** How many frames have run. */
    ghost var frames: nat

    /**
     * The list is what remains of the laid-out list after `popped` removals from
     * its front, the offset has dropped by `Step` per frame, and as long as
     * fragments remain the offset has not passed the lowest laid-out bottom.
     */
    ghost predicate Valid()
      reads this
    {
      Remains(queue, initial, popped) &&
      y == -(Step * frames) &&
      (queue != [] ==> Step * frames <= MaxBottom(initial))
    }

    /** Lines 26-41 and 64 of the routine: the saved screen geometry and `y = 0`. */
    constructor (frags: seq<Fragment>, screen: Size, image1: Size, image2: Size, fontUnderline: bool)
      ensures Valid()
      ensures y == 0 && queue == frags && this.fontUnderline == fontUnderline
      ensures this.screen == screen && this.image1 == image1 && this.image2 == image2
      ensures initial == RectsOf(frags) && popped == 0 && frames == 0
    {
      y := 0;
      queue := frags;
      this.fontUnderline := fontUnderline;
      this.screen, this.image1, this.image2 := screen, image1, image2;
      initial := RectsOf(frags);
      popped, frames := 0, 0;
    }

    /**
     * The body of the animation loop (lines 66-87): scrolls by `Step`, runs one
     * pass over the fragment list, then (after the display flip) draws the
     * background and the two images, which the next frame's text is drawn over.
     */
    method Frame() returns (shown: seq<Blit>)
      requires Valid()
      modifies this
      ensures Valid()
      ensures y == old(y) - Step && frames == old(frames) + 1
      ensures var w := FrameWalk(old(queue), y, screen.h, old(fontUnderline));
        queue == w.queue && fontUnderline == w.fontUnderline && popped == old(popped) + |w.culled| &&
        shown == w.drawn + Layers(y, screen, image1, image2)
    {
      y := y - Step;
      var bottom := SurfaceRect(screen).Bottom();
      var foo, drawn, font, pops := WalkFragments(queue, y, bottom, fontUnderline);
      FrameRemains(queue, initial, popped, y, bottom, fontUnderline);
      queue, fontUnderline := foo, font;
      shown := drawn + Layers(y, screen, image1, image2);
      popped := popped + pops;
      frames := frames + 1;
    }

    /**
     * The animation loop (lines 65-87): runs frames while fragments remain and
     * no quit is pending before the frame, and ends with the list empty or a
     * quit pending. Frame `j` makes its pass at the offset dropped by `Step`
     * `j` times. It runs at most the lowest laid-out bottom divided by `Step`,
     * plus one, frames, whatever the order of the fragments.
     */
    method Run(quits: seq<bool>) returns (n: nat)
      requires Valid()
      modifies this
      ensures Valid() && frames == old(frames) + n && y == old(y) - Step * n
      ensures AfterFrames(old(queue), old(fontUnderline), old(y), screen.h, n) == Scrolled(queue, fontUnderline)
      ensures popped == old(popped) + (|old(queue)| - |queue|)
      ensures queue == [] || QuitPending(quits, n)
      ensures NoQuitBefore(quits, n)
      ensures NonEmptyBefore(old(queue), old(fontUnderline), old(y), screen.h, n)
      ensures n <= MaxBottom(initial) / Step + 1
    {
      n := 0;
      ghost var q0, f0, y0 := queue, fontUnderline, y;
      while queue != [] && !QuitPending(quits, n)
        invariant Valid() && frames == old(frames) + n && y == y0 - Step * n
        invariant AfterFrames(q0, f0, y0, screen.h, n) == Scrolled(queue, fontUnderline)
        invariant NoQuitBefore(quits, n)
        invariant NonEmptyBefore(q0, f0, y0, screen.h, n)
        invariant n <= MaxBottom(initial) / Step + 1
        decreases MaxBottom(initial) / Step + 1 - frames
      {
        NonEmptyStep(q0, f0, y0, screen.h, n);
        var shown := Frame();
        AfterFramesStep(q0, f0, y0, screen.h, n);
        n := n + 1;
      }
    }
  }

  /**
   * The whole routine: lays out the text, then animates it. It runs frames
   * while the list is non-empty and no quit is pending, and returns how many
   * ran and the list they leave, which is empty unless a quit is pending. It
   * runs no more frames than the lowest laid-out bottom divided by `Step`,
   * plus one.
   */
  method Credit(text: string, measure: Measure, screen: Size, image1: Size, image2: Size,
                fontUnderline: bool, quits: seq<bool>) returns (n: nat, rest: seq<Fragment>)
    ensures rest == AfterFrames(Fragments(Markup.SplitLines(text), GeometryOf(measure, screen), measure),
                                fontUnderline, 0, screen.h, n).queue
    ensures rest == [] || QuitPending(quits, n)
    ensures NoQuitBefore(quits, n)
    ensures NonEmptyBefore(Fragments(Markup.SplitLines(text), GeometryOf(measure, screen), measure),
                           fontUnderline, 0, screen.h, n)
    ensures n <= MaxBottom(RectsOf(Fragments(Markup.SplitLines(text), GeometryOf(measure, screen), measure))) / Step + 1
  {
    var foo := LayoutText(text, measure, screen);
    var a := new Animator(foo, screen, image1, image2, fontUnderline);
    n := a.Run(quits);
    rest := a.queue;
  }
}
