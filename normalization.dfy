/**
 * The text side of `normalize` (test_app.py:39-44):
 *
 *   1. every ideographic space U+3000 becomes an ASCII space;
 *   2. leading and trailing whitespace is stripped (`str.strip()`);
 *   3. `re.sub(r"\s*,\s*", ",", s)`: every match of "whitespace, one comma,
 *      whitespace", found left to right without overlap, becomes a bare comma.
 *
 * Whitespace is Python's: the characters for which `str.isspace()` holds,
 * which is also the class `\s` of a `str` regular expression.
 */
module Normalization {
  import opened Wrappers

  const IdeographicSpace: char := '\U{3000}'

  /** Python's Unicode whitespace (category Zs, or bidirectional class WS, B or S). */
  predicate IsWs(c: char) {
    || ('\t' <= c <= '\r')
    || ('\U{1C}' <= c <= '\U{1F}')
    || c == ' '
    || c == '\U{85}'
    || c == '\U{A0}'
    || c == '\U{1680}'
    || ('\U{2000}' <= c <= '\U{200A}')
    || c == '\U{2028}'
    || c == '\U{2029}'
    || c == '\U{202F}'
    || c == '\U{205F}'
    || c == IdeographicSpace
  }

  /**
   * The members of the class that matter here: the comma is not whitespace, so
   * `\s*` can never swallow the comma of a match, while the ASCII space, tab and
   * newline and the ideographic space are.
   */
  lemma WhitespaceClass(c: char)
    ensures c == ',' ==> !IsWs(c)
    ensures c == ' ' || c == '\t' || c == '\n' || c == IdeographicSpace ==> IsWs(c)
  {
  }

  predicate AllWs(s: string) {
    forall i | 0 <= i < |s| :: IsWs(s[i])
  }

  /** A character that is neither whitespace nor a comma: no match can contain it. */
  predicate Plain(c: char) {
    !IsWs(c) && c != ','
  }

  /** No whitespace character stands directly before or after a comma. */
  ghost predicate CommaTight(s: string) {
    forall i | 0 <= i < |s| - 1 ::
      !(IsWs(s[i]) && s[i + 1] == ',') && !(s[i] == ',' && IsWs(s[i + 1]))
  }

  /** The shape every normalized text has. */
  ghost predicate NormalForm(s: string) {
    && IdeographicSpace !in s
    && (s == [] || (!IsWs(s[0]) && !IsWs(s[|s| - 1])))
    && CommaTight(s)
  }

  /** The text with all whitespace erased: what normalization must not change. */
  function DropWs(s: string): string {
    if s == [] then []
    else (if IsWs(s[0]) then [] else [s[0]]) + DropWs(s[1..])
  }

  // ---------------------------------------------------------------------------
  // Step 1: s.replace("　", " ")
  // ---------------------------------------------------------------------------

  function ReplaceIdeographicSpace(s: string): (r: string)
    ensures |r| == |s|
    ensures IdeographicSpace !in r
    ensures forall i | 0 <= i < |s| :: r[i] == (if s[i] == IdeographicSpace then ' ' else s[i])
  {
    if s == [] then []
    else [if s[0] == IdeographicSpace then ' ' else s[0]] + ReplaceIdeographicSpace(s[1..])
  }

  // ---------------------------------------------------------------------------
  // Step 2: s.strip()
  // ---------------------------------------------------------------------------

  /** Removes the longest all-whitespace prefix. */
  function StripLeading(s: string): (r: string)
    ensures |r| <= |s| && r == s[|s| - |r|..]
    ensures AllWs(s[..|s| - |r|])
    ensures r == [] || !IsWs(r[0])
  {
    if s != [] && IsWs(s[0]) then
      var t := s[1..];
      var r := StripLeading(t);
      assert s[..|s| - |r|] == [s[0]] + t[..|t| - |r|];
      r
    else s
  }

  /** Removes the longest all-whitespace suffix. */
  function StripTrailing(s: string): (r: string)
    ensures |r| <= |s| && r == s[..|r|]
    ensures AllWs(s[|r|..])
    ensures r == [] || !IsWs(r[|r| - 1])
  {
    if s != [] && IsWs(s[|s| - 1]) then
      var p := s[..|s| - 1];
      var r := StripTrailing(p);
      assert s[|r|..] == p[|r|..] + [s[|s| - 1]];
      r
    else s
  }

  function Strip(s: string): (r: string)
    ensures r == [] || (!IsWs(r[0]) && !IsWs(r[|r| - 1]))
    ensures IdeographicSpace !in s ==> IdeographicSpace !in r
  {
    var l := StripLeading(s);
    var r := StripTrailing(l);
    assert r != [] ==> r[0] == l[0];
    assert forall c | c in r :: c in l;
    assert forall c | c in l :: c in s;
    r
  }

  // ---------------------------------------------------------------------------
  // Step 3: re.sub(r"\s*,\s*", ",", s)
  // ---------------------------------------------------------------------------

  /**
   * Length of the longest all-whitespace run starting at index i: what a greedy
   * `\s*` takes there.
   */
  function WsRun(s: string, i: nat): (k: nat)
    requires i <= |s|
    ensures i + k <= |s|
    ensures forall j | i <= j < i + k :: IsWs(s[j])
    ensures i + k < |s| ==> !IsWs(s[i + k])
    decreases |s| - i
  {
    if i < |s| && IsWs(s[i]) then 1 + WsRun(s, i + 1) else 0
  }

  /**
   * The length of the match of `\s*,\s*` at the start of s, if there is one.
   * Backtracking `\s*` to a shorter run never helps, since the character it
   * would then have to read as the comma is whitespace.
   */
  function MatchAt(s: string): (m: Option<nat>)
    ensures m.Some? ==> 0 < m.value <= |s|
  {
    var k := WsRun(s, 0);
    if k < |s| && s[k] == ',' then Some(k + 1 + WsRun(s, k + 1)) else None
  }

  /**
   * What a match is: there is one exactly when the leading whitespace run is
   * followed by a comma, and it then covers that run, the comma and the whole
   * whitespace run after it.
   */
  lemma MatchAtShape(s: string)
    ensures MatchAt(s).None? <==> (WsRun(s, 0) == |s| || s[WsRun(s, 0)] != ',')
    ensures MatchAt(s).Some? ==>
      && WsRun(s, 0) < MatchAt(s).value <= |s|
      && s[WsRun(s, 0)] == ','
      && (forall i | 0 <= i < MatchAt(s).value && i != WsRun(s, 0) :: IsWs(s[i]))
      && (MatchAt(s).value < |s| ==> !IsWs(s[MatchAt(s).value]))
  {
  }

  /** Scans left to right: at a match emit one comma, otherwise copy one character. */
  function SubCommaSpaces(s: string): (r: string)
    ensures |r| <= |s|
    ensures r == [] <==> s == []
    decreases |s|
  {
    if s == [] then []
    else match MatchAt(s)
      case Some(m) => [','] + SubCommaSpaces(s[m..])
      case None => [s[0]] + SubCommaSpaces(s[1..])
  }

  function NormalizeText(s: string): (r: string)
    ensures |r| <= |s|
  {
    SubCommaSpaces(Strip(ReplaceIdeographicSpace(s)))
  }

  // ---------------------------------------------------------------------------
  // Properties of DropWs
  // ---------------------------------------------------------------------------

  lemma {:induction false} DropWsAppend(a: string, b: string)
    ensures DropWs(a + b) == DropWs(a) + DropWs(b)
  {
    if a != [] {
      assert (a + b)[1..] == a[1..] + b;
      DropWsAppend(a[1..], b);
    } else {
      assert a + b == b;
    }
  }

  lemma {:induction false} DropWsAllWs(s: string)
    requires AllWs(s)
    ensures DropWs(s) == []
  {
    if s != [] {
      DropWsAllWs(s[1..]);
    }
  }

  /** A text made of whitespace around exactly one comma erases to that comma. */
  lemma {:induction false} DropWsOneComma(s: string, k: nat)
    requires k < |s| && s[k] == ','
    requires forall i | 0 <= i < |s| && i != k :: IsWs(s[i])
    ensures DropWs(s) == [',']
  {
    if k == 0 {
      DropWsAllWs(s[1..]);
    } else {
      DropWsOneComma(s[1..], k - 1);
    }
  }

  lemma {:induction false} ReplacePreservesDropWs(s: string)
    ensures DropWs(ReplaceIdeographicSpace(s)) == DropWs(s)
  {
    if s != [] {
      ReplacePreservesDropWs(s[1..]);
    }
  }

  lemma SplitAt(s: string, k: nat)
    requires k <= |s|
    ensures s == s[..k] + s[k..]
  {
  }

  lemma StripPreservesDropWs(s: string)
    ensures DropWs(Strip(s)) == DropWs(s)
  {
    var l := StripLeading(s);
    var p := s[..|s| - |l|];
    SplitAt(s, |s| - |l|);
    DropWsAppend(p, l);
    DropWsAllWs(p);
    var r := StripTrailing(l);
    var t := l[|r|..];
    SplitAt(l, |r|);
    DropWsAppend(r, t);
    DropWsAllWs(t);
    calc {
      DropWs(Strip(s));
      DropWs(r);
      DropWs(r) + DropWs(t);
      DropWs(l);
      DropWs(p) + DropWs(l);
      DropWs(s);
    }
  }

  // ---------------------------------------------------------------------------
  // Properties of SubCommaSpaces
  // ---------------------------------------------------------------------------

  lemma SubHead(s: string)
    requires s != []
    ensures SubCommaSpaces(s) != []
    ensures SubCommaSpaces(s)[0] == (if MatchAt(s).Some? then ',' else s[0])
  {
  }

  lemma SubAtMatch(s: string, m: nat)
    requires MatchAt(s) == Some(m)
    ensures SubCommaSpaces(s) == [','] + SubCommaSpaces(s[m..])
  {
  }

  /** Where no match starts, the substitution copies one character. */
  lemma SubNoMatch(s: string)
    requires s != [] && MatchAt(s).None?
    ensures SubCommaSpaces(s) == [s[0]] + SubCommaSpaces(s[1..])
  {
  }

  lemma ConsSplit(w: string, t: string)
    requires w != []
    ensures (w + t)[0] == w[0] && (w + t)[1..] == w[1..] + t
    ensures w == [w[0]] + w[1..]
  {
  }

  lemma DropAppend(a: string, b: string, m: nat)
    requires m <= |a|
    ensures (a + b)[m..] == a[m..] + b
  {
  }

  /** Adding one character in front keeps a text comma-tight when it is not ws next to a comma. */
  lemma CommaTightCons(c: char, t: string)
    requires CommaTight(t)
    requires t != [] ==> !(IsWs(c) && t[0] == ',') && !(c == ',' && IsWs(t[0]))
    ensures CommaTight([c] + t)
  {
    var r := [c] + t;
    forall i | 0 <= i < |r| - 1
      ensures !(IsWs(r[i]) && r[i + 1] == ',') && !(r[i] == ',' && IsWs(r[i + 1]))
    {
      if i > 0 {
        assert r[i] == t[i - 1] && r[i + 1] == t[i];
      }
    }
  }

  /** A whitespace run is the same seen from inside a suffix. */
  lemma {:induction false} WsRunDrop(s: string, d: nat, i: nat)
    requires d + i <= |s|
    ensures WsRun(s[d..], i) == WsRun(s, d + i)
    decreases |s| - d - i
  {
    if d + i < |s| {
      assert s[d..][i] == s[d + i];
      if IsWs(s[d + i]) {
        WsRunDrop(s, d, i + 1);
      }
    }
  }

  /** Where no match starts at a whitespace character, none starts right after it either. */
  lemma NoMatchAfterLoneWs(s: string)
    requires s != [] && IsWs(s[0]) && MatchAt(s).None?
    ensures |s| > 1 ==> MatchAt(s[1..]).None? && s[1] != ','
  {
    if |s| > 1 {
      WsRunDrop(s, 1, 0);
      if WsRun(s, 0) < |s| {
        assert s[1..][WsRun(s[1..], 0)] == s[WsRun(s, 0)];
      }
    }
  }

  /** The substitution leaves no whitespace next to a comma. */
  lemma {:induction false} SubIsCommaTight(s: string)
    ensures CommaTight(SubCommaSpaces(s))
    decreases |s|
  {
    if s != [] {
      match MatchAt(s)
      case Some(m) =>
        var rest := s[m..];
        SubAtMatch(s, m);
        SubIsCommaTight(rest);
        if rest != [] {
          SubHead(rest);
        }
        CommaTightCons(',', SubCommaSpaces(rest));
      case None =>
        var rest := s[1..];
        SubNoMatch(s);
        SubIsCommaTight(rest);
        if IsWs(s[0]) && rest != [] {
          NoMatchAfterLoneWs(s);
          SubHead(rest);
        }
        CommaTightCons(s[0], SubCommaSpaces(rest));
    }
  }

  /** A text that starts (ends) with non-whitespace still does after the substitution. */
  lemma SubKeepsCleanStart(s: string)
    requires s != [] && !IsWs(s[0])
    ensures SubCommaSpaces(s) != [] && !IsWs(SubCommaSpaces(s)[0])
  {
    SubHead(s);
  }

  /** Non-empty, and the last character is not whitespace. */
  predicate EndsClean(s: string) {
    s != [] && !IsWs(s[|s| - 1])
  }

  lemma {:induction false} SubKeepsCleanEnd(s: string)
    requires EndsClean(s)
    ensures EndsClean(SubCommaSpaces(s))
    decreases |s|
  {
    match MatchAt(s)
    case Some(m) =>
      SubAtMatch(s, m);
      if m < |s| {
        EndsCleanDrop(s, m);
        SubKeepsCleanEnd(s[m..]);
        EndsCleanCons(',', SubCommaSpaces(s[m..]));
      } else {
        SubAtLastMatch(s, m);
      }
    case None =>
      SubNoMatch(s);
      if |s| > 1 {
        EndsCleanDrop(s, 1);
        SubKeepsCleanEnd(s[1..]);
        EndsCleanCons(s[0], SubCommaSpaces(s[1..]));
      } else {
        SubOfOne(s);
      }
  }

  lemma EndsCleanDrop(s: string, m: nat)
    requires EndsClean(s) && m < |s|
    ensures EndsClean(s[m..])
  {
    assert s[m..][|s[m..]| - 1] == s[|s| - 1];
  }

  lemma EndsCleanCons(c: char, x: string)
    requires EndsClean(x)
    ensures EndsClean([c] + x)
  {
    assert ([c] + x)[|[c] + x| - 1] == x[|x| - 1];
  }

  /** A match that reaches the end leaves a lone comma. */
  lemma SubAtLastMatch(s: string, m: nat)
    requires MatchAt(s) == Some(m) && m == |s|
    ensures EndsClean(SubCommaSpaces(s))
  {
    SubAtMatch(s, m);
    assert s[m..] == [];
    assert SubCommaSpaces(s) == [','];
  }

  /** A one-character text without a match is copied. */
  lemma SubOfOne(s: string)
    requires EndsClean(s) && |s| == 1 && MatchAt(s).None?
    ensures EndsClean(SubCommaSpaces(s))
  {
    SubNoMatch(s);
    assert s[1..] == [];
    assert SubCommaSpaces(s) == [s[0]];
  }

  lemma {:induction false} SubKeepsNoIdeographicSpace(s: string)
    requires IdeographicSpace !in s
    ensures IdeographicSpace !in SubCommaSpaces(s)
    decreases |s|
  {
    if s != [] {
      match MatchAt(s)
      case Some(m) =>
        assert forall c | c in s[m..] :: c in s;
        SubKeepsNoIdeographicSpace(s[m..]);
      case None =>
        assert forall c | c in s[1..] :: c in s;
        SubKeepsNoIdeographicSpace(s[1..]);
    }
  }

  /** The substitution deletes whitespace and nothing else. */
  lemma {:induction false} SubPreservesDropWs(s: string)
    ensures DropWs(SubCommaSpaces(s)) == DropWs(s)
    decreases |s|
  {
    if s != [] {
      match MatchAt(s)
      case Some(m) =>
        SubPreservesDropWs(s[m..]);
        assert s == s[..m] + s[m..];
        DropWsAppend(s[..m], s[m..]);
        DropWsOneComma(s[..m], WsRun(s, 0));
        DropWsAppend([','], SubCommaSpaces(s[m..]));
      case None =>
        SubPreservesDropWs(s[1..]);
        DropWsAppend([s[0]], SubCommaSpaces(s[1..]));
    }
  }

  lemma CommaTightAround(s: string, j: nat)
    requires CommaTight(s) && j < |s|
    ensures j > 0 ==> !(IsWs(s[j - 1]) && s[j] == ',')
    ensures j + 1 < |s| ==> !(s[j] == ',' && IsWs(s[j + 1]))
  {
  }

  /** On a comma-tight text the substitution finds nothing to do. */
  lemma {:induction false} SubFixesCommaTight(s: string)
    requires CommaTight(s)
    ensures SubCommaSpaces(s) == s
    decreases |s|
  {
    if s != [] {
      assert CommaTight(s[1..]) by {
        forall i | 0 <= i < |s[1..]| - 1
          ensures !(IsWs(s[1..][i]) && s[1..][i + 1] == ',') && !(s[1..][i] == ',' && IsWs(s[1..][i + 1]))
        {
          assert s[1..][i] == s[i + 1] && s[1..][i + 1] == s[i + 2];
        }
      }
      match MatchAt(s)
      case Some(m) =>
        var k := WsRun(s, 0);
        CommaTightAround(s, k);
        assert k == 0;
        CommaTightAround(s, 0);
        assert m == 1;
        SubFixesCommaTight(s[1..]);
        assert s == [','] + s[1..];
      case None =>
        SubFixesCommaTight(s[1..]);
        assert s == [s[0]] + s[1..];
    }
  }

  // ---------------------------------------------------------------------------
  // Which whitespace survives: the substitution is local
  // ---------------------------------------------------------------------------

  /** A run that starts in b is unaffected by what precedes b. */
  lemma {:induction false} WsRunShift(a: string, b: string, i: nat)
    requires i <= |b|
    ensures WsRun(a + b, |a| + i) == WsRun(b, i)
    decreases |b| - i
  {
    if i < |b| {
      assert (a + b)[|a| + i] == b[i];
      if IsWs(b[i]) {
        WsRunShift(a, b, i + 1);
      }
    }
  }

  lemma {:induction false} WsRunThroughWs(w: string, t: string, i: nat)
    requires AllWs(w) && i <= |w|
    ensures WsRun(w + t, i) == |w| - i + WsRun(t, 0)
    decreases |w| - i
  {
    if i == |w| {
      WsRunShift(w, t, 0);
    } else {
      assert (w + t)[i] == w[i];
      WsRunThroughWs(w, t, i + 1);
    }
  }

  lemma WsRunAfterAllWs(w: string, t: string)
    requires AllWs(w)
    ensures WsRun(w + t, 0) == |w| + WsRun(t, 0)
  {
    WsRunThroughWs(w, t, 0);
  }

  /** A run that starts in a stops inside a when a ends with non-whitespace. */
  lemma {:induction false} WsRunOfPrefix(a: string, b: string, i: nat)
    requires a != [] && !IsWs(a[|a| - 1]) && i < |a|
    ensures WsRun(a + b, i) == WsRun(a, i)
    decreases |a| - i
  {
    assert (a + b)[i] == a[i];
    if IsWs(a[i]) {
      WsRunOfPrefix(a, b, i + 1);
    }
  }

  lemma IndexAppendLeft(a: string, b: string, k: nat)
    requires k < |a|
    ensures (a + b)[k] == a[k]
  {
  }

  lemma WsRunStopsBeforeLast(a: string, i: nat)
    requires a != [] && !IsWs(a[|a| - 1]) && i < |a|
    ensures i + WsRun(a, i) < |a|
  {
  }

  /** A match that starts in a never reaches past a Plain last character of a. */
  lemma MatchAtOfPrefix(a: string, b: string)
    requires a != [] && Plain(a[|a| - 1])
    ensures MatchAt(a + b) == MatchAt(a)
    ensures MatchAt(a).Some? ==> MatchAt(a).value < |a|
  {
    WsRunOfPrefix(a, b, 0);
    WsRunStopsBeforeLast(a, 0);
    var k := WsRun(a, 0);
    IndexAppendLeft(a, b, k);
    if a[k] == ',' {
      MatchAtOfPrefixComma(a, b, k);
    } else {
      MatchAtNone(a);
      MatchAtNone(a + b);
    }
  }

  /** The comma case of MatchAtOfPrefix: both runs after the comma agree. */
  lemma MatchAtOfPrefixComma(a: string, b: string, k: nat)
    requires a != [] && Plain(a[|a| - 1])
    requires k == WsRun(a, 0) && k == WsRun(a + b, 0)
    requires k < |a| && a[k] == ',' && (a + b)[k] == ','
    ensures MatchAt(a + b) == MatchAt(a)
    ensures MatchAt(a).Some? && MatchAt(a).value < |a|
  {
    var j := WsRun(a, k + 1);
    WsRunOfPrefix(a, b, k + 1);
    WsRunStopsBeforeLast(a, k + 1);
    MatchAtFromRuns(a, k, j);
    MatchAtFromRuns(a + b, k, j);
  }

  /** The substitution splits at a Plain character. */
  lemma {:induction false} SubSplitsAtPlain(a: string, b: string)
    requires a != [] && Plain(a[|a| - 1])
    ensures SubCommaSpaces(a + b) == SubCommaSpaces(a) + SubCommaSpaces(b)
    decreases |a|
  {
    MatchAtOfPrefix(a, b);
    match MatchAt(a)
    case Some(m) =>
      PlainLastOfDrop(a, m);
      SubSplitsAtPlain(a[m..], b);
      SplitStepAtMatch(a, b, m);
    case None =>
      if |a| > 1 {
        PlainLastOfDrop(a, 1);
        SubSplitsAtPlain(a[1..], b);
        SplitStepCopy(a, b);
      } else {
        SplitStepCopyLast(a, b);
      }
  }

  lemma PlainLastOfDrop(a: string, m: nat)
    requires a != [] && Plain(a[|a| - 1]) && m < |a|
    ensures a[m..] != [] && Plain(a[m..][|a[m..]| - 1])
  {
    assert a[m..][|a[m..]| - 1] == a[|a| - 1];
  }

  /** One step of SubSplitsAtPlain at a match, given the split of the rest. */
  lemma SplitStepAtMatch(a: string, b: string, m: nat)
    requires MatchAt(a) == Some(m) && MatchAt(a + b) == Some(m) && m < |a|
    requires SubCommaSpaces(a[m..] + b) == SubCommaSpaces(a[m..]) + SubCommaSpaces(b)
    ensures SubCommaSpaces(a + b) == SubCommaSpaces(a) + SubCommaSpaces(b)
  {
    SubAtMatch(a, m);
    SubAtMatch(a + b, m);
    DropAppend(a, b, m);
    Assoc([','], SubCommaSpaces(a[m..]), SubCommaSpaces(b));
  }

  /** One step of SubSplitsAtPlain where a character is copied, given the split of the rest. */
  lemma SplitStepCopy(a: string, b: string)
    requires |a| > 1 && MatchAt(a).None? && MatchAt(a + b).None?
    requires SubCommaSpaces(a[1..] + b) == SubCommaSpaces(a[1..]) + SubCommaSpaces(b)
    ensures SubCommaSpaces(a + b) == SubCommaSpaces(a) + SubCommaSpaces(b)
  {
    SubNoMatch(a);
    SubNoMatch(a + b);
    ConsSplit(a, b);
    Assoc([a[0]], SubCommaSpaces(a[1..]), SubCommaSpaces(b));
  }

  /** The last character of a is copied and nothing of a remains. */
  lemma SplitStepCopyLast(a: string, b: string)
    requires |a| == 1 && MatchAt(a).None? && MatchAt(a + b).None?
    ensures SubCommaSpaces(a + b) == SubCommaSpaces(a) + SubCommaSpaces(b)
  {
    SubNoMatch(a);
    SubNoMatch(a + b);
    ConsSplit(a, b);
    assert a[1..] == [];
    assert a[1..] + b == b;
  }

  /** No match starts in a whitespace run that ends at a Plain character. */
  lemma NoMatchBeforePlain(w: string, t: string)
    requires AllWs(w)
    requires t != [] && Plain(t[0])
    ensures MatchAt(w + t).None?
  {
    WsRunAfterAllWs(w, t);
    assert (w + t)[|w|] == t[0];
  }

  /** A whitespace run followed by a Plain character is copied unchanged. */
  lemma {:induction false} SubKeepsRunBeforePlain(w: string, t: string)
    requires AllWs(w)
    requires t != [] && Plain(t[0])
    ensures SubCommaSpaces(w + t) == w + SubCommaSpaces(t)
    decreases |w|
  {
    if w == [] {
      assert w + t == t;
    } else {
      NoMatchBeforePlain(w, t);
      SubNoMatch(w + t);
      ConsSplit(w, t);
      SubKeepsRunBeforePlain(w[1..], t);
      Assoc([w[0]], w[1..], SubCommaSpaces(t));
    }
  }

  /** Whitespace between two Plain characters survives the substitution. */
  lemma SubKeepsInteriorRun(x: string, w: string, y: string)
    requires x != [] && Plain(x[|x| - 1])
    requires AllWs(w)
    requires y != [] && Plain(y[0])
    ensures SubCommaSpaces(x + w + y) == SubCommaSpaces(x) + w + SubCommaSpaces(y)
  {
    calc {
      SubCommaSpaces(x + w + y);
      { Assoc(x, w, y); }
      SubCommaSpaces(x + (w + y));
      { SubSplitsAtPlain(x, w + y); }
      SubCommaSpaces(x) + SubCommaSpaces(w + y);
      { SubKeepsRunBeforePlain(w, y); }
      SubCommaSpaces(x) + (w + SubCommaSpaces(y));
      { Assoc(SubCommaSpaces(x), w, SubCommaSpaces(y)); }
      SubCommaSpaces(x) + w + SubCommaSpaces(y);
    }
  }

  lemma WsRunOfNonWs(s: string)
    requires s == [] || !IsWs(s[0])
    ensures WsRun(s, 0) == 0
  {
  }

  lemma MatchAtNone(s: string)
    requires WsRun(s, 0) == |s| || s[WsRun(s, 0)] != ','
    ensures MatchAt(s).None?
  {
  }

  lemma MatchAtIs(s: string)
    requires WsRun(s, 0) < |s| && s[WsRun(s, 0)] == ','
    ensures MatchAt(s) == Some(WsRun(s, 0) + 1 + WsRun(s, WsRun(s, 0) + 1))
  {
  }

  /** MatchAt in terms of the two whitespace runs around a comma. */
  lemma MatchAtFromRuns(t: string, a: nat, b: nat)
    requires a == WsRun(t, 0) && a < |t| && t[a] == ','
    requires b == WsRun(t, a + 1)
    ensures MatchAt(t) == Some(a + 1 + b)
  {
    MatchAtIs(t);
  }

  /** All whitespace followed by something that is not: the run is exactly w. */
  lemma WsRunBeforeNonWs(w: string, y: string)
    requires AllWs(w)
    requires y == [] || !IsWs(y[0])
    ensures WsRun(w + y, 0) == |w|
  {
    WsRunOfNonWs(y);
    WsRunAfterAllWs(w, y);
  }

  /** In w + "," + u with w all whitespace, the leading run is w and the comma follows it. */
  lemma WsRunToComma(w: string, u: string)
    requires AllWs(w)
    ensures WsRun(w + ([','] + u), 0) == |w|
    ensures (w + ([','] + u))[|w|] == ','
  {
    WsRunOfNonWs([','] + u);
    WsRunAfterAllWs(w, [','] + u);
  }

  /** The run right after the comma of w + "," + u is the leading run of u. */
  lemma WsRunAfterComma(w: string, u: string)
    ensures WsRun(w + ([','] + u), |w| + 1) == WsRun(u, 0)
  {
    assert w + ([','] + u) == (w + [',']) + u;
    WsRunShift(w + [','], u, 0);
  }

  lemma MatchAtCommaRun(w1: string, w2: string, y: string)
    requires AllWs(w1) && AllWs(w2)
    requires y == [] || !IsWs(y[0])
    ensures MatchAt(w1 + ([','] + (w2 + y))) == Some(|w1| + 1 + |w2|)
  {
    var u := w2 + y;
    WsRunToComma(w1, u);
    WsRunAfterComma(w1, u);
    WsRunBeforeNonWs(w2, y);
    MatchAtFromRuns(w1 + ([','] + u), |w1|, |w2|);
  }

  /** One match: whitespace, a comma and whitespace, then something that is not whitespace. */
  lemma SubAtCommaRun(w1: string, w2: string, y: string)
    requires AllWs(w1) && AllWs(w2)
    requires y == [] || !IsWs(y[0])
    ensures SubCommaSpaces(w1 + ([','] + (w2 + y))) == [','] + SubCommaSpaces(y)
  {
    var t := w1 + ([','] + (w2 + y));
    var m := |w1| + 1 + |w2|;
    MatchAtCommaRun(w1, w2, y);
    SubAtMatch(t, m);
    assert t[m..] == y;
  }

  lemma Assoc(a: string, b: string, c: string)
    ensures a + b + c == a + (b + c)
  {
  }

  /** The whitespace on both sides of a comma is deleted. */
  lemma SubDeletesRunsAroundComma(x: string, w1: string, w2: string, y: string)
    requires x == [] || Plain(x[|x| - 1])
    requires AllWs(w1) && AllWs(w2)
    requires y == [] || !IsWs(y[0])
    ensures SubCommaSpaces(x + w1 + [','] + w2 + y) == SubCommaSpaces(x) + [','] + SubCommaSpaces(y)
  {
    var t := w1 + ([','] + (w2 + y));
    SubAtCommaRun(w1, w2, y);
    RegroupAroundComma(x, w1, w2, y);
    SubOfPlainThen(x, t);
    Assoc(SubCommaSpaces(x), [','], SubCommaSpaces(y));
  }

  /** The five parts of a comma run, regrouped as a prefix and the run. */
  lemma RegroupAroundComma(x: string, w1: string, w2: string, y: string)
    ensures x + w1 + [','] + w2 + y == x + (w1 + ([','] + (w2 + y)))
  {
    calc {
      x + w1 + [','] + w2 + y;
      { Assoc(x + w1 + [','], w2, y); }
      x + w1 + [','] + (w2 + y);
      { Assoc(x + w1, [','], w2 + y); }
      x + w1 + ([','] + (w2 + y));
      { Assoc(x, w1, [','] + (w2 + y)); }
      x + (w1 + ([','] + (w2 + y)));
    }
  }

  /** A text that is empty or ends in a plain character is rewritten separately from what follows. */
  lemma SubOfPlainThen(x: string, t: string)
    requires x == [] || Plain(x[|x| - 1])
    ensures SubCommaSpaces(x + t) == SubCommaSpaces(x) + SubCommaSpaces(t)
  {
    if x != [] {
      SubSplitsAtPlain(x, t);
    } else {
      assert x + t == t;
    }
  }

  // ---------------------------------------------------------------------------
  // Properties of the whole normalization
  // ---------------------------------------------------------------------------

  /** No U+3000, no whitespace at either end, none right before or after a comma. */
  lemma NormalizeTextShape(s: string)
    ensures NormalForm(NormalizeText(s))
  {
    var t := Strip(ReplaceIdeographicSpace(s));
    SubIsCommaTight(t);
    SubKeepsNoIdeographicSpace(t);
    if t != [] {
      SubKeepsCleanStart(t);
      SubKeepsCleanEnd(t);
    }
  }

  /** Only whitespace is removed: the other characters survive, in order. */
  lemma NormalizeTextOnlyDropsWs(s: string)
    ensures DropWs(NormalizeText(s)) == DropWs(s)
  {
    var r := ReplaceIdeographicSpace(s);
    ReplacePreservesDropWs(s);
    StripPreservesDropWs(r);
    SubPreservesDropWs(Strip(r));
  }

  lemma NormalFormIsFixed(s: string)
    requires NormalForm(s)
    ensures NormalizeText(s) == s
  {
    assert ReplaceIdeographicSpace(s) == s;
    assert StripLeading(s) == s;
    assert StripTrailing(s) == s;
    SubFixesCommaTight(s);
  }

  lemma NormalizeTextIdempotent(s: string)
    ensures NormalizeText(NormalizeText(s)) == NormalizeText(s)
  {
    NormalizeTextShape(s);
    NormalFormIsFixed(NormalizeText(s));
  }

  lemma NoCommaNoMatch(s: string)
    requires ',' !in s
    ensures MatchAt(s).None?
  {
    if WsRun(s, 0) < |s| {
      assert s[WsRun(s, 0)] in s;
    }
    MatchAtNone(s);
  }

  lemma {:induction false} SubWithoutComma(s: string)
    requires ',' !in s
    ensures SubCommaSpaces(s) == s
    decreases |s|
  {
    if s != [] {
      NoCommaNoMatch(s);
      SubNoMatch(s);
      assert ',' !in s[1..];
      SubWithoutComma(s[1..]);
      assert s == [s[0]] + s[1..];
    }
  }

  /** On a text with no comma, normalization only maps U+3000 and strips the ends. */
  lemma NormalizeTextWithoutComma(s: string)
    requires ',' !in s
    ensures NormalizeText(s) == Strip(ReplaceIdeographicSpace(s))
  {
    var r := ReplaceIdeographicSpace(s);
    var t := Strip(r);
    assert ',' !in r;
    assert forall c | c in StripLeading(r) :: c in r;
    assert forall c | c in t :: c in StripLeading(r);
    SubWithoutComma(t);
  }

  // ---------------------------------------------------------------------------
  // Which whitespace survives the whole normalization
  // ---------------------------------------------------------------------------

  lemma ReplaceAppend(a: string, b: string)
    ensures ReplaceIdeographicSpace(a + b) == ReplaceIdeographicSpace(a) + ReplaceIdeographicSpace(b)
  {
  }

  lemma ReplaceKeepsWs(w: string)
    requires AllWs(w)
    ensures AllWs(ReplaceIdeographicSpace(w))
  {
  }

  /** Leading whitespace is stripped from a only, when a ends with non-whitespace. */
  lemma {:induction false} StripLeadingAppend(a: string, b: string)
    requires a != [] && !IsWs(a[|a| - 1])
    ensures StripLeading(a + b) == StripLeading(a) + b
  {
    if IsWs(a[0]) {
      assert (a + b)[1..] == a[1..] + b;
      StripLeadingAppend(a[1..], b);
    }
  }

  /** Trailing whitespace is stripped from b only, when b starts with non-whitespace. */
  lemma {:induction false} StripTrailingAppend(a: string, b: string)
    requires b != [] && !IsWs(b[0])
    ensures StripTrailing(a + b) == a + StripTrailing(b)
    decreases |b|
  {
    if IsWs(b[|b| - 1]) {
      assert |b| > 1;
      assert (a + b)[..|a + b| - 1] == a + b[..|b| - 1];
      StripTrailingAppend(a, b[..|b| - 1]);
    }
  }

  /** Strip(a + m + b) strips only the outer ends when a and b bound m with non-whitespace. */
  lemma StripAround(a: string, m: string, b: string)
    requires a != [] && !IsWs(a[|a| - 1])
    requires b != [] && !IsWs(b[0])
    ensures StripLeading(a) != [] && StripLeading(a)[|StripLeading(a)| - 1] == a[|a| - 1]
    ensures StripTrailing(b) != [] && StripTrailing(b)[0] == b[0]
    ensures Strip(a + m + b) == StripLeading(a) + m + StripTrailing(b)
    ensures Strip(a) == StripLeading(a) && Strip(b) == StripTrailing(b)
  {
    Assoc(a, m, b);
    StripLeadingAppend(a, m + b);
    Assoc(StripLeading(a), m, b);
    StripTrailingAppend(StripLeading(a) + m, b);
  }

  /** Whitespace between two Plain characters survives normalization (U+3000 becoming a space). */
  lemma NormalizeTextKeepsInteriorRun(x: string, w: string, y: string)
    requires x != [] && Plain(x[|x| - 1])
    requires AllWs(w)
    requires y != [] && Plain(y[0])
    ensures NormalizeText(x + w + y)
         == NormalizeText(x) + ReplaceIdeographicSpace(w) + NormalizeText(y)
  {
    var rx, rw, ry := ReplaceIdeographicSpace(x), ReplaceIdeographicSpace(w), ReplaceIdeographicSpace(y);
    assert Plain(rx[|rx| - 1]) && Plain(ry[0]);
    ReplaceKeepsWs(w);
    StripAround(rx, rw, ry);
    var sx, sy := StripLeading(rx), StripTrailing(ry);
    calc {
      NormalizeText(x + w + y);
      SubCommaSpaces(Strip(ReplaceIdeographicSpace(x + w + y)));
      { ReplaceAppend(x + w, y); ReplaceAppend(x, w); }
      SubCommaSpaces(Strip(rx + rw + ry));
      SubCommaSpaces(sx + rw + sy);
      { SubKeepsInteriorRun(sx, rw, sy); }
      SubCommaSpaces(sx) + rw + SubCommaSpaces(sy);
      NormalizeText(x) + rw + NormalizeText(y);
    }
  }

  /** The whitespace on both sides of a comma is deleted by normalization. */
  lemma NormalizeTextDeletesRunsAroundComma(x: string, w1: string, w2: string, y: string)
    requires x != [] && Plain(x[|x| - 1])
    requires AllWs(w1) && AllWs(w2)
    requires y != [] && !IsWs(y[0])
    ensures NormalizeText(x + w1 + [','] + w2 + y) == NormalizeText(x) + [','] + NormalizeText(y)
  {
    var rx, r1, r2, ry := ReplaceIdeographicSpace(x), ReplaceIdeographicSpace(w1),
                          ReplaceIdeographicSpace(w2), ReplaceIdeographicSpace(y);
    assert Plain(rx[|rx| - 1]) && !IsWs(ry[0]);
    ReplaceKeepsWs(w1);
    ReplaceKeepsWs(w2);
    var mid := w1 + [','] + w2;
    var rmid := r1 + [','] + r2;
    assert ReplaceIdeographicSpace(mid) == rmid by {
      ReplaceAppend(w1 + [','], w2);
      ReplaceAppend(w1, [',']);
    }
    StripAround(rx, rmid, ry);
    var sx, sy := StripLeading(rx), StripTrailing(ry);
    calc {
      NormalizeText(x + w1 + [','] + w2 + y);
      { Assoc(x + w1 + [','], w2, y); Assoc(x + w1, [','], w2); Assoc(x, w1 + [','], w2); Assoc(x, w1, [',']); }
      NormalizeText(x + mid + y);
      SubCommaSpaces(Strip(ReplaceIdeographicSpace(x + mid + y)));
      { ReplaceAppend(x + mid, y); ReplaceAppend(x, mid); }
      SubCommaSpaces(Strip(rx + rmid + ry));
      SubCommaSpaces(sx + rmid + sy);
      { Assoc(sx, r1 + [','], r2); Assoc(sx, r1, [',']); }
      SubCommaSpaces(sx + r1 + [','] + r2 + sy);
      { SubDeletesRunsAroundComma(sx, r1, r2, sy); }
      SubCommaSpaces(sx) + [','] + SubCommaSpaces(sy);
      NormalizeText(x) + [','] + NormalizeText(y);
    }
  }
}
