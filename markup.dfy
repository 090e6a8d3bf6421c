/**
 * The two markup controls of the credits text: a backslash splits a line into a
 * left and a right column, and a part wrapped in underscores is underlined.
 * Also the splitting of the text block into lines.
 */
module Markup {

  // ---------------------------------------------------------------------------
  // Lines: `str.splitlines()` on a unicode string
  // ---------------------------------------------------------------------------

  /** The line boundaries `splitlines` recognises on a unicode string. */
  predicate IsLineBreak(c: char)
  {
    c == '\n' || c == '\r' || c == '\U{0B}' || c == '\U{0C}' ||
    c == '\U{1C}' || c == '\U{1D}' || c == '\U{1E}' || c == '\U{85}' ||
    c == '\U{2028}' || c == '\U{2029}'
  }

  predicate NoBreak(l: string)
  {
    forall j :: 0 <= j < |l| ==> !IsLineBreak(l[j])
  }

  /** Index of the first line boundary in `s`, or `|s|` when there is none. */
  function LineEnd(s: string): (k: nat)
    ensures k <= |s|
    ensures forall j :: 0 <= j < k ==> !IsLineBreak(s[j])
    ensures k < |s| ==> IsLineBreak(s[k])
  {
    if s == [] || IsLineBreak(s[0]) then 0
    else
      1 + LineEnd(s[1..])
  }

  /** Length of the boundary at `k`: "\r\n" counts as one boundary of two characters. */
  function BreakWidth(s: string, k: nat): (n: nat)
    requires k < |s|
    ensures 1 <= n <= |s| - k
  {
    if s[k] == '\r' && k + 1 < |s| && s[k + 1] == '\n' then 2 else 1
  }

  /**
   * `text.splitlines()`: the lines of `s` without their terminators; a final
   * terminator does not start a further empty line, and the empty text has no lines.
   */
  function SplitLines(s: string): (lines: seq<string>)
    ensures forall i :: 0 <= i < |lines| ==> NoBreak(lines[i])
    ensures lines == [] <==> s == []
    decreases |s|
  {
    if s == [] then []
    else
      var k := LineEnd(s);
      if k == |s| then
        assert s[..k] == s;
        [s]
      else
        [s[..k]] + SplitLines(s[k + BreakWidth(s, k)..])
  }

  /** Every line followed by "\n": a text whose lines are `ls`. */
  function JoinLines(ls: seq<string>): string
  {
    if ls == [] then [] else ls[0] + "\n" + JoinLines(ls[1..])
  }

  /**
   * A break-free line followed by any single boundary character is split off as
   * the first line, unless that character is a '\r' that starts a "\r\n" pair.
   */
  lemma SplitBreak(l: string, c: char, t: string)
    requires NoBreak(l) && IsLineBreak(c)
    requires !(c == '\r' && t != [] && t[0] == '\n')
    ensures SplitLines(l + [c] + t) == [l] + SplitLines(t)
  {
    var s := l + [c] + t;
    var k := |l|;
    assert s[k] == c && s[..k] == l && s[k + 1..] == t;
    assert LineEnd(s) == k by {
      assert forall j :: 0 <= j < k ==> s[j] == l[j];
    }
    assert BreakWidth(s, k) == 1;
  }

  /** A break-free line followed by "\n" is split off as the first line. */
  lemma SplitCons(l: string, t: string)
    requires NoBreak(l)
    ensures SplitLines(l + "\n" + t) == [l] + SplitLines(t)
  {
    assert l + "\n" + t == l + ['\n'] + t;
    SplitBreak(l, '\n', t);
  }

  /** Splitting a text built from break-free lines gives those lines back. */
  lemma {:induction false} SplitJoin(ls: seq<string>)
    requires forall i :: 0 <= i < |ls| ==> NoBreak(ls[i])
    ensures SplitLines(JoinLines(ls)) == ls
  {
    if ls != [] {
      SplitCons(ls[0], JoinLines(ls[1..]));
      SplitJoin(ls[1..]);
    }
  }

  /** A break-free line followed by "\r\n" is split off as the first line: the pair is one boundary. */
  lemma SplitCrLf(l: string, t: string)
    requires NoBreak(l)
    ensures SplitLines(l + "\r\n" + t) == [l] + SplitLines(t)
  {
    var s := l + "\r\n" + t;
    var k := |l|;
    assert s[k] == '\r' && s[k + 1] == '\n' && s[..k] == l && s[k + 2..] == t;
    assert LineEnd(s) == k by {
      assert forall j :: 0 <= j < k ==> s[j] == l[j];
    }
    assert BreakWidth(s, k) == 2;
  }

  /** A non-empty text without a line boundary is one line, with no terminator needed. */
  lemma SplitOne(l: string)
    requires l != [] && NoBreak(l)
    ensures SplitLines(l) == [l]
  {
    assert LineEnd(l) == |l|;
  }

  /**
   * Splitting break-free lines each followed by "\n", then a last non-empty
   * line with no terminator, gives back all of them.
   */
  lemma {:induction false} SplitJoinLast(ls: seq<string>, l: string)
    requires forall i :: 0 <= i < |ls| ==> NoBreak(ls[i])
    requires l != [] && NoBreak(l)
    ensures SplitLines(JoinLines(ls) + l) == ls + [l]
  {
    if ls == [] {
      assert JoinLines(ls) + l == l;
      SplitOne(l);
    } else {
      var rest := JoinLines(ls[1..]);
      JoinThen(ls, l);
      SplitCons(ls[0], rest + l);
      SplitJoinLast(ls[1..], l);
      ConsSnoc(ls, l);
    }
  }

  lemma ConsSnoc<T>(s: seq<T>, x: T)
    requires s != []
    ensures [s[0]] + (s[1..] + [x]) == s + [x]
  {
    assert [s[0]] + s[1..] == s;
  }

  lemma JoinThen(ls: seq<string>, l: string)
    requires ls != []
    ensures JoinLines(ls) + l == ls[0] + "\n" + (JoinLines(ls[1..]) + l)
  {
  }

  // ---------------------------------------------------------------------------
  // Columns: `str.partition('\\')`
  // ---------------------------------------------------------------------------

  const Marker: char := '\\'

  /** The three parts `(a, b, c)` of `l.partition('\\')`; `b` is non-empty exactly when `found`. */
  datatype Parts = Parts(left: string, found: bool, right: string)

  /**
   * Splits `l` at its FIRST backslash: the left part holds no backslash, the
   * right part is everything after it, further backslashes included.
   */
  function Partition(l: string): (p: Parts)
    ensures p.found <==> Marker in l
    ensures p.found ==> l == p.left + [Marker] + p.right && Marker !in p.left
    ensures !p.found ==> p.left == l && p.right == []
  {
    if l == [] then Parts([], false, [])
    else if l[0] == Marker then
      assert l == [] + [Marker] + l[1..];
      Parts([], true, l[1..])
    else
      var p := Partition(l[1..]);
      MarkerInTail(l);
      if p.found then ConsParts(l, p.left, p.right); Parts([l[0]] + p.left, p.found, p.right)
      else Parts([l[0]] + p.left, p.found, p.right)
  }

  lemma MarkerInTail(l: string)
    requires l != [] && l[0] != Marker
    ensures Marker in l <==> Marker in l[1..]
  {
    assert l == [l[0]] + l[1..];
  }

  lemma ConsParts(l: string, left: string, right: string)
    requires l != [] && l[1..] == left + [Marker] + right
    ensures l == ([l[0]] + left) + [Marker] + right
  {
    assert l == [l[0]] + l[1..];
  }

  // ---------------------------------------------------------------------------
  // Underline: a part that starts and ends with '_' and `str.strip('_')`
  // ---------------------------------------------------------------------------

  /** `part.startswith('_') and part.endswith('_')`. */
  predicate Emphasised(part: string)
  {
    |part| > 0 && part[0] == '_' && part[|part| - 1] == '_'
  }

  /** `n` underscores. */
  function Underscores(n: nat): (r: string)
    ensures |r| == n
  {
    seq(n, _ => '_')
  }

  /** `s.lstrip('_')`: `s` is the result after some underscores, and the result does not start with one. */
  function StripLead(s: string): (r: string)
    ensures |r| <= |s| && s == Underscores(|s| - |r|) + r
    ensures r == [] || r[0] != '_'
  {
    if s != [] && s[0] == '_' then
      var r := StripLead(s[1..]);
      assert Underscores(|s| - |r|) == ['_'] + Underscores(|s| - 1 - |r|);
      r
    else
      assert Underscores(0) == [];
      s
  }

  /** `s.rstrip('_')`: `s` is the result followed by some underscores, and the result does not end with one. */
  function StripTrail(s: string): (r: string)
    ensures |r| <= |s| && s == r + Underscores(|s| - |r|)
    ensures r == [] || r[|r| - 1] != '_'
  {
    if s != [] && s[|s| - 1] == '_' then
      var r := StripTrail(s[..|s| - 1]);
      assert Underscores(|s| - |r|) == Underscores(|s| - 1 - |r|) + ['_'];
      assert s == s[..|s| - 1] + ['_'];
      r
    else
      assert Underscores(0) == [];
      s
  }

  /**
   * `s.strip('_')`: `s` is the result with underscores before and after it, and
   * the result neither starts nor ends with one.
   */
  function Strip(s: string): (r: string)
    ensures LeadingUnderscores(s) + |r| <= |s|
    ensures s == Underscores(LeadingUnderscores(s)) + r + Underscores(|s| - LeadingUnderscores(s) - |r|)
    ensures r == [] || (r[0] != '_' && r[|r| - 1] != '_')
  {
    LeadCount(s);
    StripShape(s, LeadingUnderscores(s), StripLead(s), StripTrail(StripLead(s)));
    StripTrail(StripLead(s))
  }

  /** `s` is `r` between `n` underscores and some more, when `t` is `s` after the first `n` and `r` is `t` before its last ones. */
  lemma StripShape(s: string, n: nat, t: string, r: string)
    requires n + |t| == |s| && s == Underscores(n) + t && (t == [] || t[0] != '_')
    requires |r| <= |t| && t == r + Underscores(|t| - |r|) && (r == [] || r[|r| - 1] != '_')
    ensures n + |r| <= |s|
    ensures s == Underscores(n) + r + Underscores(|s| - n - |r|)
    ensures r == [] || (r[0] != '_' && r[|r| - 1] != '_')
  {
    assert r != [] ==> r[0] == t[0];
    assert Underscores(n) + (r + Underscores(|t| - |r|)) == Underscores(n) + r + Underscores(|t| - |r|);
  }

  /** The number of underscores `s` starts with. */
  function LeadingUnderscores(s: string): (n: nat)
    ensures n <= |s|
  {
    if s != [] && s[0] == '_' then 1 + LeadingUnderscores(s[1..]) else 0
  }

  /** `s` starts with exactly `LeadingUnderscores(s)` underscores. */
  lemma {:induction false} LeadingUnderscoresAre(s: string)
    ensures forall j :: 0 <= j < LeadingUnderscores(s) ==> s[j] == '_'
    ensures LeadingUnderscores(s) < |s| ==> s[LeadingUnderscores(s)] != '_'
  {
    if s != [] && s[0] == '_' {
      LeadingUnderscoresAre(s[1..]);
    }
  }

  /** `lstrip('_')` removes exactly the leading underscores. */
  lemma LeadCount(s: string)
    ensures |s| - |StripLead(s)| == LeadingUnderscores(s)
    ensures s == Underscores(LeadingUnderscores(s)) + StripLead(s)
  {
    var r := StripLead(s);
    var k, n := |s| - |r|, LeadingUnderscores(s);
    LeadingUnderscoresAre(s);
    assert forall j :: 0 <= j < k ==> s[j] == Underscores(k)[j];
    assert k < |s| ==> s[k] == r[0];
  }


  /** A part's stored text and its underline flag. */
  datatype Styled = Styled(text: string, underline: bool)

  /**
   * The underline rule: a part is underlined exactly when it starts and ends
   * with '_', and then its text is stripped of its surrounding underscores;
   * any other part is kept as it is.
   */
  function Style(part: string): (s: Styled)
    ensures s.underline <==> Emphasised(part)
    ensures s.underline ==> s.text == Strip(part) && |s.text| < |part|
    ensures !s.underline ==> s.text == part
  {
    if |part| > 0 && part[0] == '_' && part[|part| - 1] == '_' then
      Styled(Strip(part), true)
    else
      Styled(part, false)
  }

  /** The emptiness test comes before stripping: a lone "_" is an underlined part whose text is empty. */
  lemma LoneUnderscore()
    ensures Style("_") == Styled("", true)
  {
    assert StripLead("_") == "";
  }
}
