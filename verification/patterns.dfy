/** The regular expressions scripts/post_blog.py cleans a page with, and
    Python's `re.search` / `re.sub` over them. None of the patterns can
    match the empty string or looks behind its start, so matching at
    index i of s is matching at the start of s[i..], and `re.sub` is one
    left-to-right scan that deletes each leftmost match and resumes after
    it. Letters compare as `re.IGNORECASE` does, through `Lower`. */
module Patterns {
  import opened Wrappers
  import opened Strings

  datatype Pattern =
    | Doctype            // <!DOCTYPE[^>]*>\s*
    | TitleElement       // <title>.*?</title>  (DOTALL)
    | HtmlOpen           // <html[^>]*>
    | HtmlClose          // </html>
    | H1Titled(title: string)   // <h1[^>]*>\s*{re.escape(title)}\s*</h1>

  /** A match of `p` at the start of `s[i..]` is a match at index `i` of
      `s`. */
  lemma ShiftStart(s: string, p: string, i: nat)
    requires i <= |s|
    ensures StartsWithCI(s[i..], p) <==> OccursAtCI(s, p, i)
  {
    if i + |p| <= |s| {
      assert s[i..][..|p|] == s[i..i + |p|];
    }
  }

  /** A match of `p` at index `j` of `s[i..]` is a match at index `i + j`
      of `s`. */
  lemma ShiftAt(s: string, p: string, i: nat, j: nat)
    requires i <= |s|
    ensures OccursAtCI(s[i..], p, j) <==> OccursAtCI(s, p, i + j)
  {
    if i + j + |p| <= |s| {
      assert s[i..][j..j + |p|] == s[i + j..i + j + |p|];
    }
  }

  /** `[^>]*>` from index `from`: the index of the first '>' there. */
  function TagEnd(t: string, from: nat): (r: Option<nat>)
    ensures r.Some? ==> from <= r.value < |t| && t[r.value] == '>'
    ensures r.Some? ==> forall i :: from <= i < r.value ==> t[i] != '>'
    ensures r.None? ==> forall i :: from <= i < |t| ==> t[i] != '>'
  {
    SingleCharOccurs(t, '>');
    FindFrom(t, ">", from)
  }

  /** Length of the `<!DOCTYPE[^>]*>\s*` match at the start of `t`: the
      declaration runs to the first '>' and swallows the whitespace after. */
  function DoctypeAt(t: string): (r: Option<nat>)
    ensures r.Some? <==> StartsWithCI(t, "<!doctype") && TagEnd(t, 9).Some?
    ensures r.Some? ==>
              var k := TagEnd(t, 9).value;
              && k < r.value <= |t| && AllSpace(t[k + 1..r.value])
              && (r.value < |t| ==> !IsSpace(t[r.value]))
  {
    if !StartsWithCI(t, "<!doctype") then None
    else
      match TagEnd(t, 9)
      case None => None
      case Some(k) =>
        var n := LeadingSpaces(t[k + 1..]);
        assert t[k + 1..k + 1 + n] == t[k + 1..][..n];
        Some(k + 1 + n)
  }

  /** Length of the `<title>.*?</title>` match at the start of `t`: up to
      the first closing tag after the opening one. */
  function TitleElementAt(t: string): (r: Option<nat>)
    ensures r.Some? <==> StartsWithCI(t, "<title>") && exists j: nat :: 7 <= j && OccursAtCI(t, "</title>", j)
    ensures r.Some? ==> 15 <= r.value <= |t| && OccursAtCI(t, "</title>", r.value - 8)
    ensures r.Some? ==> forall j: nat :: 7 <= j < r.value - 8 ==> !OccursAtCI(t, "</title>", j)
  {
    if !StartsWithCI(t, "<title>") then None
    else
      match FindCIFrom(t, "</title>", 7)
      case None => None
      case Some(j) => Some(j + 8)
  }

  /** Length of the `<html[^>]*>` match at the start of `t`. */
  function HtmlOpenAt(t: string): (r: Option<nat>)
    ensures r.Some? <==> StartsWithCI(t, "<html") && TagEnd(t, 5).Some?
    ensures r.Some? ==> r.value == TagEnd(t, 5).value + 1
  {
    if !StartsWithCI(t, "<html") then None
    else
      match TagEnd(t, 5)
      case None => None
      case Some(k) => Some(k + 1)
  }

  /** Length of the `<h1[^>]*>\s*TITLE\s*</h1>` match at the start of `t`.
      The title handed in is always stripped, so each `\s*` takes the
      whole whitespace run it faces and no backtracking is needed. */
  function H1At(title: string, t: string): (r: Option<nat>)
    requires Trimmed(title)
    ensures r.Some? ==> StartsWithCI(t, "<h1") && TagEnd(t, 3).Some?
    ensures r.Some? ==> H1Tail(title, t, TagEnd(t, 3).value + 1, r.value)
  {
    var k := TagEnd(t, 3);
    if !StartsWithCI(t, "<h1") || k.None? then None
    else H1Rest(title, t, k.value + 1)
  }

  /** `t[a..n]` is whitespace, the title up to case, whitespace and "</h1>":
      the element's content, stripped, equals the title. */
  predicate H1Tail(title: string, t: string, a: nat, n: nat)
  {
    && a + 5 <= n <= |t| && OccursAtCI(t, "</h1>", n - 5)
    && CaseEq(Strip(t[a..n - 5]), title)
  }

  /** Length of `t[..a]` plus the `\s*TITLE\s*</h1>` match at index `a`. */
  function H1Rest(title: string, t: string, a: nat): (r: Option<nat>)
    requires Trimmed(title) && a <= |t|
    ensures r.Some? ==> H1Tail(title, t, a, r.value)
  {
    var m := a + LeadingSpaces(t[a..]);
    if !OccursAtCI(t, title, m) then None
    else
      var e := m + |title| + LeadingSpaces(t[m + |title|..]);
      if !OccursAtCI(t, "</h1>", e) then None
      else
        H1Found(title, t, a, m, e);
        Some(e + 5)
  }

  /** The pieces `H1Rest` finds make up an `H1Tail`. */
  lemma H1Found(title: string, t: string, a: nat, m: nat, e: nat)
    requires Trimmed(title) && a <= |t| && m == a + LeadingSpaces(t[a..])
    requires OccursAtCI(t, title, m)
    requires e == m + |title| + LeadingSpaces(t[m + |title|..]) && OccursAtCI(t, "</h1>", e)
    ensures H1Tail(title, t, a, e + 5)
  {
    SpaceRun(t, a, m);
    SpaceRun(t, m + |title|, e);
    H1Content(t, a, m, |title|, e, title);
  }

  /** The whitespace run `LeadingSpaces` measures from index `a`. */
  lemma SpaceRun(t: string, a: nat, m: nat)
    requires a <= |t| && m == a + LeadingSpaces(t[a..])
    ensures m <= |t| && AllSpace(t[a..m])
  {
    assert t[a..][..m - a] == t[a..m];
  }

  /** The content between the tags is whitespace, a copy of the title up
      to case, whitespace: stripped, it is that copy. */
  lemma H1Content(t: string, a: nat, m: nat, w: nat, e: nat, title: string)
    requires a <= m && m + w <= e <= |t|
    requires AllSpace(t[a..m]) && AllSpace(t[m + w..e])
    requires CaseEq(t[m..m + w], title) && Trimmed(title)
    ensures CaseEq(Strip(t[a..e]), title)
  {
    var u, x, v := t[a..m], t[m..m + w], t[m + w..e];
    CaseEqTrimmed(x, title);
    assert t[a..e] == u + x + v;
    StripFramed(u, x, v);
  }

  /** Case-insensitive copies of a trimmed string are trimmed. */
  lemma CaseEqTrimmed(x: string, y: string)
    requires CaseEq(x, y) && Trimmed(y)
    ensures Trimmed(x)
  {
    if |x| > 0 {
      LowerKeepsSpace(x[0]);
      LowerKeepsSpace(y[0]);
      LowerKeepsSpace(x[|x| - 1]);
      LowerKeepsSpace(y[|y| - 1]);
    }
  }

  lemma LowerKeepsSpace(c: char)
    ensures IsSpace(Lower(c)) <==> IsSpace(c)
  {
  }

  /** Whitespace on both sides of a trimmed string is what `strip` removes. */
  lemma StripFramed(u: string, x: string, v: string)
    requires AllSpace(u) && AllSpace(v) && Trimmed(x)
    ensures Strip(u + x + v) == x
  {
    var s := u + x + v;
    if |x| == 0 {
      assert s == (u + v) + "";
      LeadingSpacesRun(u + v, "");
    } else {
      assert s == u + (x + v);
      LeadingSpacesRun(u, x + v);
      assert s[|u|..] == x + v;
      TrimEndRun(x, v);
    }
  }

  /** `LeadingSpaces` stops at the first non-space character. */
  lemma {:induction false} LeadingSpacesRun(u: string, w: string)
    requires AllSpace(u) && (|w| == 0 || !IsSpace(w[0]))
    ensures LeadingSpaces(u + w) == |u|
  {
    if |u| > 0 {
      assert (u + w)[1..] == u[1..] + w;
      LeadingSpacesRun(u[1..], w);
    } else {
      assert u + w == w;
    }
  }

  /** `TrimEnd` stops at the last non-space character. */
  lemma {:induction false} TrimEndRun(x: string, v: string)
    requires AllSpace(v) && (|x| == 0 || !IsSpace(x[|x| - 1]))
    ensures TrimEnd(x + v) == x
  {
    if |v| > 0 {
      var n := |v| - 1;
      assert (x + v)[..|x + v| - 1] == x + v[..n];
      TrimEndRun(x, v[..n]);
    } else {
      assert x + v == x;
    }
  }

  /** Length of the match of `p` at the start of `t`, if any. */
  function Match(p: Pattern, t: string): (r: Option<nat>)
    requires Valid(p)
    ensures r.Some? ==> 0 < r.value <= |t|
  {
    match p
    case Doctype => DoctypeAt(t)
    case TitleElement => TitleElementAt(t)
    case HtmlOpen => HtmlOpenAt(t)
    case HtmlClose => if StartsWithCI(t, "</html>") then Some(7) else None
    case H1Titled(title) => H1At(title, t)
  }

  predicate Valid(p: Pattern)
  {
    p.H1Titled? ==> Trimmed(p.title)
  }

  /** `Match` for `p` as a function value, for the search and substitution
      engine below. */
  function Matcher(p: Pattern): (m: string -> Option<nat>)
    requires Valid(p)
    ensures forall t :: m(t) == Match(p, t)
  {
    t => Match(p, t)
  }

  /** What matcher `m` reports at the start of `t`, kept only when it is a
      length a regular expression could report there: non-empty and
      within `t`. */
  function Hit(m: string -> Option<nat>, t: string): (r: Option<nat>)
    ensures r.Some? ==> 0 < r.value <= |t| && m(t) == r
  {
    if m(t).Some? && 0 < m(t).value <= |t| then m(t) else None
  }

  /** Every length `Match` reports is one `Hit` keeps. */
  lemma MatcherHit(p: Pattern, t: string)
    requires Valid(p)
    ensures Hit(Matcher(p), t) == Match(p, t)
  {
  }

  /** `re.search`: the leftmost index where `m` matches. */
  function Search(m: string -> Option<nat>, t: string): (r: Option<nat>)
    ensures r.Some? ==> r.value <= |t| && Hit(m, t[r.value..]).Some?
    ensures r.Some? ==> forall j :: 0 <= j < r.value ==> Hit(m, t[j..]).None?
    ensures r.None? ==> forall j :: 0 <= j <= |t| ==> Hit(m, t[j..]).None?
    decreases |t|
  {
    if Hit(m, t).Some? then Some(0)
    else if |t| == 0 then None
    else
      var r := Search(m, t[1..]);
      assert forall j :: 1 <= j <= |t| ==> t[1..][j - 1..] == t[j..];
      assert t[0..] == t;
      match r
      case None => None
      case Some(i) => Some(i + 1)
  }

  /** `re.sub(pattern, "", t)`. */
  function Sub(m: string -> Option<nat>, t: string): (r: string)
    ensures |r| <= |t|
    decreases |t|
  {
    if |t| == 0 then ""
    else
      match Hit(m, t)
      case Some(n) => Sub(m, t[n..])
      case None => [t[0]] + Sub(m, t[1..])
  }

  /** Where `m` matches nowhere, `re.sub` leaves the text unchanged. */
  lemma {:induction false} SubUnmatched(m: string -> Option<nat>, t: string)
    requires forall j :: 0 <= j < |t| ==> Hit(m, t[j..]).None?
    ensures Sub(m, t) == t
    decreases |t|
  {
    if |t| > 0 {
      assert t[0..] == t;
      SubNoHit(m, t);
      assert forall j :: 0 <= j < |t| - 1 ==> t[1..][j..] == t[j + 1..];
      SubUnmatched(m, t[1..]);
    }
  }

  /** `re.sub` keeps the text before the leftmost match, drops the match,
      and goes on after it. */
  lemma SubLeftmost(m: string -> Option<nat>, t: string, i: nat, n: nat)
    requires Search(m, t) == Some(i) && Hit(m, t[i..]) == Some(n)
    ensures Sub(m, t) == t[..i] + Sub(m, t[i + n..])
  {
    assert t[0..] == t;
    SubSkip(m, t, 0, i);
    var u := t[i..];
    assert u[n..] == t[i + n..];
    assert Sub(m, u) == Sub(m, u[n..]);
  }

  /** `m` matches at no index from `k` up to `i` of `t`. */
  predicate NoHitIn(m: string -> Option<nat>, t: string, k: nat, i: nat)
    requires k <= i <= |t|
  {
    forall j :: k <= j < i ==> Hit(m, t[j..]).None?
  }

  /** Where nothing matches in `t[k..i]`, `re.sub` on `t[k..]` copies
      `t[k..i]`. */
  lemma {:induction false} SubSkip(m: string -> Option<nat>, t: string, k: nat, i: nat)
    requires k <= i <= |t| && NoHitIn(m, t, k, i)
    ensures Sub(m, t[k..]) == t[k..i] + Sub(m, t[i..])
    decreases i - k
  {
    if k < i {
      var u := t[k..];
      assert Hit(m, u).None?;
      SubNoHit(m, u);
      assert u[1..] == t[k + 1..];
      assert NoHitIn(m, t, k + 1, i);
      SubSkip(m, t, k + 1, i);
      var a, b := t[k + 1..i], Sub(m, t[i..]);
      assert t[k..i] == [t[k]] + a;
      assert [t[k]] + (a + b) == [t[k]] + a + b;
    }
  }

  /** Where nothing matches at the start, `re.sub` keeps the first
      character. */
  lemma SubNoHit(m: string -> Option<nat>, t: string)
    requires |t| > 0 && Hit(m, t).None?
    ensures Sub(m, t) == [t[0]] + Sub(m, t[1..])
  {
    assert t[0..] == t;
  }

}
