/**
 * Parsing the credits text into fragments and giving each its starting
 * rectangle below the bottom of the screen.
 */
module Layout {
  import opened Rects
  import opened Markup

  /**
   * What a fragment shows: its text until it is first drawn, then the surface
   * the font rendered from that text (with or without underline).
   */
  datatype Content = Text(s: string) | Rendered(s: string, underlined: bool)

  /** One entry `[content, rect, underline]` of the fragment list. */
  datatype Fragment = Fragment(content: Content, rect: Rect, underline: bool)

  /** Font metrics and a measurement of text: `font_.size(text)`. */
  type Measure = string -> Size

  /** What the layout reads from the screen and from the width and height of a space. */
  datatype Geometry = Geometry(centerX: int, bottom: int, space: Size)

  /** Lines 35-37: the screen's centre and bottom, and the size of a space. */
  function GeometryOf(measure: Measure, screen: Size): (g: Geometry)
    ensures g.centerX == screen.w / 2 && g.bottom == screen.h && g.space == measure(" ")
  {
    Geometry(CenterX(SurfaceRect(screen)), SurfaceRect(screen).Bottom(), measure(" "))
  }

  /** `Rleft`: where a left column ends. */
  function LeftColumnEnd(g: Geometry): int
  {
    g.centerX - g.space.w * 3
  }

  /** `Rright`: where a right column starts. */
  function RightColumnStart(g: Geometry): int
  {
    g.centerX + g.space.w * 3
  }

  /** The top of every fragment of line `i`: one space height per line below the screen. */
  function LineTop(g: Geometry, i: nat): int
  {
    g.bottom + g.space.h * i
  }

  /** The fragment for the non-empty left part `a` of line `i`. */
  function LeftFragment(a: string, found: bool, i: nat, g: Geometry, measure: Measure): (f: Fragment)
    ensures Laid(f, measure) && f.rect.top == LineTop(g, i)
    ensures f.content == Text(Style(a).text) && f.underline == Emphasised(a)
    ensures found ==> f.rect.Right() == LeftColumnEnd(g)
    ensures !found ==> CenterX(f.rect) == g.centerX
  {
    var st := Style(a);
    var r := Rect(0, 0, measure(st.text).w, measure(st.text).h);
    var placed := if found then SetTopRight(r, LeftColumnEnd(g), LineTop(g, i))
                  else SetMidTop(r, g.centerX, LineTop(g, i));
    Fragment(Text(st.text), placed, st.underline)
  }

  /** The fragment for the non-empty right part `c` of line `i`. */
  function RightFragment(c: string, i: nat, g: Geometry, measure: Measure): (f: Fragment)
    ensures Laid(f, measure) && f.rect.top == LineTop(g, i)
    ensures f.content == Text(Style(c).text) && f.underline == Emphasised(c)
    ensures f.rect.left == RightColumnStart(g)
  {
    var st := Style(c);
    var r := Rect(0, 0, measure(st.text).w, measure(st.text).h);
    Fragment(Text(st.text), SetTopLeft(r, RightColumnStart(g), LineTop(g, i)), st.underline)
  }

  /** The fragments of line `i`: its left part, if non-empty, then its right part, if non-empty. */
  function LineFragments(l: string, i: nat, g: Geometry, measure: Measure): (r: seq<Fragment>)
    ensures |r| <= 2
  {
    var p := Partition(l);
    (if p.left != [] then [LeftFragment(p.left, p.found, i, g, measure)] else []) +
    (if p.right != [] then [RightFragment(p.right, i, g, measure)] else [])
  }

  /** Every fragment of line `i` is unrendered, sized from its own text, and starts at the line's top. */
  lemma LineLaid(l: string, i: nat, g: Geometry, measure: Measure)
    ensures var r := LineFragments(l, i, g, measure);
      forall j :: 0 <= j < |r| ==> Laid(r[j], measure) && r[j].rect.top == LineTop(g, i)
  {
  }

  /** A fragment as the layout leaves it: unrendered, sized by measuring its own text. */
  predicate Laid(f: Fragment, measure: Measure)
  {
    f.content.Text? && f.rect.w == measure(f.content.s).w && f.rect.h == measure(f.content.s).h
  }

  /** Every fragment is laid out, with its top between the screen's bottom and `hi`. */
  predicate LaidBetween(fs: seq<Fragment>, g: Geometry, hi: int, measure: Measure)
  {
    forall j :: 0 <= j < |fs| ==> Laid(fs[j], measure) && g.bottom <= fs[j].rect.top <= hi
  }

  predicate TopsSorted(fs: seq<Fragment>)
  {
    forall i, j :: 0 <= i <= j < |fs| ==> fs[i].rect.top <= fs[j].rect.top
  }

  predicate BottomsSorted(fs: seq<Fragment>)
  {
    forall i, j :: 0 <= i <= j < |fs| ==> fs[i].rect.Bottom() <= fs[j].rect.Bottom()
  }

  /** Every fragment's text has the same measured height as a space. */
  ghost predicate UniformHeight(measure: Measure)
  {
    forall s: string :: measure(s).h == measure(" ").h
  }

  /** The fragment list of the whole text: the fragments of each line, line after line. */
  function Fragments(lines: seq<string>, g: Geometry, measure: Measure): (r: seq<Fragment>)
    ensures |r| <= 2 * |lines|
    decreases |lines|
  {
    if lines == [] then []
    else
      var n := |lines| - 1;
      Fragments(lines[..n], g, measure) + LineFragments(lines[n], n, g, measure)
  }

  /**
   * Every fragment of the list is unrendered and sized from its own text, its
   * top is at or below the screen's bottom and no lower than the last line's
   * top, and tops are non-decreasing along the list.
   */
  lemma {:induction false} FragmentsLaid(lines: seq<string>, g: Geometry, measure: Measure)
    ensures lines != [] ==> LaidBetween(Fragments(lines, g, measure), g, LineTop(g, |lines| - 1), measure)
    ensures TopsSorted(Fragments(lines, g, measure))
    decreases |lines|
  {
    if lines != [] {
      var n := |lines| - 1;
      FragmentsLaid(lines[..n], g, measure);
      LineLaid(lines[n], n, g, measure);
      AppendLine(Fragments(lines[..n], g, measure), LineFragments(lines[n], n, g, measure), g, n, measure);
    }
  }

  /** The fragments of line `n` after those of the lines before it keep the layout's order and bounds. */
  lemma AppendLine(prev: seq<Fragment>, last: seq<Fragment>, g: Geometry, n: nat, measure: Measure)
    requires n == 0 ==> prev == []
    requires n > 0 ==> LaidBetween(prev, g, LineTop(g, n - 1), measure)
    requires TopsSorted(prev)
    requires forall j :: 0 <= j < |last| ==> Laid(last[j], measure) && last[j].rect.top == LineTop(g, n)
    ensures LaidBetween(prev + last, g, LineTop(g, n), measure)
    ensures TopsSorted(prev + last)
  {
    var r := prev + last;
    forall j | 0 <= j < |r|
      ensures Laid(r[j], measure) && g.bottom <= r[j].rect.top <= LineTop(g, n)
    {
      if j < |prev| {
        assert r[j] == prev[j] && LineTop(g, n - 1) <= LineTop(g, n);
      } else {
        assert r[j] == last[j - |prev|];
      }
    }
    forall i, j | 0 <= i <= j < |r|
      ensures r[i].rect.top <= r[j].rect.top
    {
      if j < |prev| {
        assert r[i] == prev[i] && r[j] == prev[j];
      } else if i >= |prev| {
        assert r[i] == last[i - |prev|] && r[j] == last[j - |prev|];
      }
    }
  }

  /**
   * Lines 35-62 of the credits routine: splits the text into lines and appends
   * the fragments of each line, in order, to an initially empty list.
   */
  method LayoutText(text: string, measure: Measure, screen: Size) returns (foo: seq<Fragment>)
    ensures foo == Fragments(SplitLines(text), GeometryOf(measure, screen), measure)
  {
    var g := GeometryOf(measure, screen);
    var lines := SplitLines(text);
    foo := [];
    for i := 0 to |lines|
      invariant foo == Fragments(lines[..i], g, measure)
    {
      foo := AddLine(foo, lines[i], i, g, measure);
      FragmentsSnoc(lines, i, g, measure);
    }
    assert lines[..|lines|] == lines;
  }

  /** Lines 43-62, one pass of the loop: appends the fragments of line `i` to `foo`. */
  method AddLine(foo: seq<Fragment>, l: string, i: nat, g: Geometry, measure: Measure)
    returns (foo': seq<Fragment>)
    ensures foo' == foo + LineFragments(l, i, g, measure)
  {
    foo' := foo;
    var parts := Partition(l);
    if parts.left != [] {
      foo' := foo' + [LeftFragment(parts.left, parts.found, i, g, measure)];
    }
    if parts.right != [] {
      foo' := foo' + [RightFragment(parts.right, i, g, measure)];
    }
  }

  lemma FragmentsSnoc(lines: seq<string>, i: nat, g: Geometry, measure: Measure)
    requires i < |lines|
    ensures Fragments(lines[..i + 1], g, measure)
         == Fragments(lines[..i], g, measure) + LineFragments(lines[i], i, g, measure)
  {
    assert lines[..i + 1][..i] == lines[..i];
  }

  // ---------------------------------------------------------------------------
  // Properties of the layout
  // ---------------------------------------------------------------------------

  /**
   * The fragments of one line, column by column: a non-empty left part gives
   * the first fragment, flagged and stripped by the underline rule, right-aligned
   * to `Rleft` when the line has a backslash (even if nothing follows it) and
   * centred otherwise; a non-empty right part gives the last fragment, starting at
   * `Rright`. Empty parts give nothing.
   */
  lemma LineColumns(l: string, i: nat, g: Geometry, measure: Measure)
    ensures var p, r := Partition(l), LineFragments(l, i, g, measure);
      |r| == (if p.left != [] then 1 else 0) + (if p.right != [] then 1 else 0) &&
      (p.left != [] ==>
        r[0].content == Text(Style(p.left).text) &&
        r[0].underline == Emphasised(p.left) &&
        (p.found ==> r[0].rect.Right() == LeftColumnEnd(g)) &&
        (!p.found ==> CenterX(r[0].rect) == g.centerX)) &&
      (p.right != [] ==>
        p.found &&
        r[|r| - 1].content == Text(Style(p.right).text) &&
        r[|r| - 1].underline == Emphasised(p.right) &&
        r[|r| - 1].rect.left == RightColumnStart(g))
  {
  }

  /**
   * With a font whose every text measures one space high, bottoms are
   * non-decreasing along the fragment list, as the culling of the scroll
   * loop needs.
   */
  lemma LayoutBottomsSorted(lines: seq<string>, g: Geometry, measure: Measure)
    requires UniformHeight(measure)
    ensures BottomsSorted(Fragments(lines, g, measure))
  {
    var fs := Fragments(lines, g, measure);
    FragmentsLaid(lines, g, measure);
    forall i, j | 0 <= i <= j < |fs|
      ensures fs[i].rect.Bottom() <= fs[j].rect.Bottom()
    {
      assert fs[i].rect.h == measure(fs[i].content.s).h == measure(" ").h;
      assert fs[j].rect.h == measure(fs[j].content.s).h == measure(" ").h;
    }
  }
}
