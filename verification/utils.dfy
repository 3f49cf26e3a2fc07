/** The helpers of scripts/utils.py: environment lookup, blob-name
    filtering, base names, sorting by base name and the two Markdown-fence
    strippers. Python's `os.path.basename` and `os.path.splitext` are
    modelled here too. */
module Utils {
  import opened Wrappers
  import opened Strings
  import opened Lines
  import opened Seqs
  import opened Ordering

  /** The only error `get_env` raises: a required variable is unset or empty. */
  datatype EnvError = MissingVariable(key: string)

  /** `get_env(key, default, required)` over the process environment `env`:
      `os.getenv(key, default)` yields the variable when it is set (even to
      ""), else the default; a required lookup raises when that value is
      `None` or "". */
  function GetEnv(env: map<string, string>, key: string, default: Option<string>, required: bool)
    : (r: Result<Option<string>, EnvError>)
    ensures r.Failure? <==>
              required &&
              (if key in env then env[key] == "" else default.None? || default.value == "")
    ensures r.Failure? ==> r.error == MissingVariable(key)
    ensures r.Success? ==> r.value == if key in env then Some(env[key]) else default
  {
    var value := if key in env then Some(env[key]) else default;
    if required && (value.None? || value.value == "") then Failure(MissingVariable(key))
    else Success(value)
  }

  /** A variable set to "" hides the default: a required lookup still
      raises, an optional one yields "" rather than the default. */
  lemma EmptyVariableHidesDefault(env: map<string, string>, key: string, default: string)
    requires key in env && env[key] == ""
    ensures GetEnv(env, key, Some(default), true) == Failure(MissingVariable(key))
    ensures GetEnv(env, key, Some(default), false) == Success(Some(""))
  {
  }

  /** `get_env(key, default)` with a string default never raises and
      always yields a string. */
  function GetEnvOr(env: map<string, string>, key: string, default: string): (v: string)
    ensures v == if key in env then env[key] else default
  {
    GetEnv(env, key, Some(default), false).value.value
  }

  predicate IsJsonName(name: string)
  {
    EndsWith(LowerStr(name), ".json")
  }

  /** `filter_json_blobs`: the names whose lower-cased form ends in
      ".json", each as often as listed, in listing order. */
  function FilterJsonBlobs(names: seq<string>): (r: seq<string>)
    ensures forall n :: n in r <==> n in names && IsJsonName(n)
    ensures IsSubsequence(r, names)
    ensures forall n :: multiset(r)[n] == if IsJsonName(n) then multiset(names)[n] else 0
  {
    FilterSpec(IsJsonName, names);
    Filter(IsJsonName, names)
  }

  /** `get_basename` (`os.path.basename`): what follows the last '/'. */
  function GetBasename(name: string): (r: string)
    ensures '/' !in r
    ensures EndsWith(name, r)
    ensures |r| < |name| ==> name[|name| - |r| - 1] == '/'
    ensures '/' !in name ==> r == name
  {
    match RFind(name, "/")
    case None =>
      NoSlashAfter(name, 0);
      assert name[0..] == name;
      name
    case Some(i) =>
      NoSlashAfter(name, i + 1);
      assert name[i..i + 1] == [name[i]];
      name[i + 1..]
  }

  /** No "/" occurs from `k` on, so the tail from `k` holds no '/'. */
  lemma NoSlashAfter(name: string, k: nat)
    requires k <= |name|
    requires forall j: nat :: k <= j ==> !OccursAt(name, "/", j)
    ensures '/' !in name[k..]
  {
    var r := name[k..];
    forall j | 0 <= j < |r| ensures r[j] != '/' {
      assert !OccursAt(name, "/", k + j);
      assert name[k + j..k + j + 1] == [r[j]];
    }
  }

  /** The base name of "dir/name" is `name` when `name` has no '/'. */
  lemma BasenameOfPath(dir: string, name: string)
    requires '/' !in name
    ensures GetBasename(dir + "/" + name) == name
  {
    var p := dir + "/" + name;
    var r := GetBasename(p);
    assert p[|dir|] == '/';
    assert p[|dir| + 1..] == name;
  }

  predicate AllDots(s: string)
  {
    forall i :: 0 <= i < |s| ==> s[i] == '.'
  }

  /** `p` has its extension at `d`: `p[d]` is a '.' with no '.' and no
      '/' after it, and the path component before it holds a character
      other than '.'. */
  predicate ExtensionAt(p: string, d: nat)
  {
    && d < |p| && p[d] == '.' && '.' !in p[d + 1..] && '/' !in p[d..]
    && exists c :: 0 <= c < d && p[c] != '.' && '/' !in p[c..d]
  }

  /** The position of the last '/', or -1. */
  function LastSlash(p: string): (sep: int)
    ensures -1 <= sep < |p|
    ensures sep >= 0 ==> p[sep] == '/'
    ensures forall j :: sep < j < |p| ==> p[j] != '/'
  {
    match RFind(p, "/")
    case Some(i) =>
      assert p[i..i + 1] == [p[i]];
      NoSlashAfter(p, i + 1);
      assert forall j :: i < j < |p| ==> p[j] == p[i + 1..][j - i - 1];
      i
    case None =>
      NoSlashAfter(p, 0);
      assert forall j :: 0 <= j < |p| ==> p[j] == p[0..][j];
      -1
  }

  /** `os.path.splitext(p)[0]`: `p` without its extension. The extension
      starts at the last '.' of the last path component, unless only dots
      precede that '.' within the component (".bashrc" has none). The
      root is `p[..d]` when `p` has its extension at `d`, and `p` when it
      has none. */
  function SplitExtRoot(p: string): (root: string)
    ensures |root| <= |p| && root == p[..|root|]
    ensures root != p ==> ExtensionAt(p, |root|)
    ensures forall d: nat :: ExtensionAt(p, d) ==> root == p[..d]
  {
    var sep := LastSlash(p);
    match RFind(p, ".")
    case None =>
      NoDotNoExtension(p);
      p
    case Some(dot) =>
      ExtensionIsLastDot(p, dot);
      if dot > sep && !AllDots(p[sep + 1..dot]) then
        ExtensionFacts(p, dot);
        ExtensionWitness(p, dot, sep);
        p[..dot]
      else
        ExtensionStem(p, dot, sep);
        assert !ExtensionAt(p, dot);
        p
  }

  /** After the last '.' there is no '.', and no '/' when the last '/'
      comes before it. */
  lemma ExtensionFacts(p: string, dot: nat)
    requires RFind(p, ".") == Some(dot) && LastSlash(p) < dot
    ensures dot < |p| && p[dot] == '.'
    ensures '.' !in p[dot + 1..] && '/' !in p[dot..]
  {
    assert p[dot..dot + 1] == [p[dot]];
    forall j | dot < j < |p| ensures p[j] != '.' {
      assert !OccursAt(p, ".", j) && p[j..j + 1] == [p[j]];
    }
    assert forall j :: dot <= j < |p| ==> p[j] == p[dot..][j - dot];
  }

  /** Without a '.' there is no extension. */
  lemma NoDotNoExtension(p: string)
    requires RFind(p, ".").None?
    ensures forall d: nat :: !ExtensionAt(p, d)
  {
    forall d: nat | d < |p| ensures p[d] != '.' {
      assert !OccursAt(p, ".", d) && p[d..d + 1] == [p[d]];
    }
  }

  /** An extension can only start at the last '.'. */
  lemma ExtensionIsLastDot(p: string, dot: nat)
    requires RFind(p, ".") == Some(dot)
    ensures forall d: nat :: ExtensionAt(p, d) ==> d == dot
  {
    assert p[dot..dot + 1] == [p[dot]];
    forall d: nat | ExtensionAt(p, d) ensures d == dot {
      assert p[d..d + 1] == [p[d]];
      assert OccursAt(p, ".", d);
      assert d <= dot;
    }
  }

  /** A '.' after the last '/' with a non-dot between them is where the
      extension starts. */
  lemma ExtensionWitness(p: string, dot: nat, sep: int)
    requires sep == LastSlash(p) && sep < dot < |p|
    requires p[dot] == '.' && '.' !in p[dot + 1..] && '/' !in p[dot..]
    requires !AllDots(p[sep + 1..dot])
    ensures ExtensionAt(p, dot)
  {
    var i :| 0 <= i < dot - sep - 1 && p[sep + 1..dot][i] != '.';
    var c := sep + 1 + i;
    assert p[c] != '.';
    forall j | 0 <= j < dot - c ensures p[c..dot][j] != '/' {
      assert p[c..dot][j] == p[c + j];
    }
  }

  /** An extension starts after the last '/' and has a character other
      than '.' before it in its component. */
  lemma ExtensionStem(p: string, dot: nat, sep: int)
    requires sep == LastSlash(p)
    ensures ExtensionAt(p, dot) ==> sep < dot && !AllDots(p[sep + 1..dot])
  {
    if ExtensionAt(p, dot) {
      var c :| 0 <= c < dot && p[c] != '.' && '/' !in p[c..dot];
      assert sep < c by {
        NoSlashIn(p, c, dot);
        NoSlashIn(p, dot, |p|);
      }
      assert p[sep + 1..dot][c - sep - 1] == p[c];
    }
  }

  lemma NoSlashIn(p: string, i: nat, j: nat)
    requires i <= j <= |p| && '/' !in p[i..j]
    ensures forall k :: i <= k < j ==> p[k] != '/'
  {
    forall k | i <= k < j ensures p[k] != '/' {
      assert p[i..j][k - i] == p[k];
    }
  }

  /** The root of "x.html" is `x` when `x` is free of '/' and not all
      dots. */
  lemma RootOfHtmlName(x: string)
    requires '/' !in x && !AllDots(x)
    ensures SplitExtRoot(x + ".html") == x
  {
    var p := x + ".html";
    SingleCharOccurs(p, '.');
    SingleCharOccurs(p, '/');
    assert p[|x|] == '.';
    assert p[|x| + 1..] == "html";
    forall j | |x| < j < |p| ensures p[j] != '.' {
      assert p[j] == p[|x| + 1..][j - |x| - 1];
    }
    assert RFind(p, ".") == Some(|x|);
    assert RFind(p, "/") == None;
    assert p[0..|x|] == x;
  }

  /** `s.split('-')[0]`: the part of `s` before its first '-'. */
  function BeforeDash(s: string): (r: string)
    ensures '-' !in r
    ensures |r| <= |s| && r == s[..|r|]
    ensures |r| < |s| ==> s[|r|] == '-'
    ensures '-' !in s ==> r == s
  {
    match Find(s, "-")
    case None =>
      assert forall i :: 0 <= i < |s| ==> !OccursAt(s, "-", i) && s[i..i + 1] == [s[i]];
      s
    case Some(i) =>
      assert forall j :: 0 <= j < i ==> !OccursAt(s, "-", j) && s[j..j + 1] == [s[j]];
      assert s[i..i + 1] == [s[i]];
      s[..i]
  }

  /** A part without '-' is what comes before the dash that follows it. */
  lemma BeforeDashOf(base: string, rest: string)
    requires '-' !in base
    ensures BeforeDash(base + "-" + rest) == base
  {
    var s := base + "-" + rest;
    var r := BeforeDash(s);
    assert s[..|base|] == base && s[|base|] == '-';
  }

  /** `sort_by_timestamp`: the names reordered by base name, the order of
      names with equal base names kept. */
  function SortByTimestamp(names: seq<string>): (r: seq<string>)
    ensures multiset(r) == multiset(names)
    ensures SortedBy(GetBasename, r)
    ensures forall k :: KeyClass(GetBasename, k, r) == KeyClass(GetBasename, k, names)
  {
    SortBy(GetBasename, names)
  }

  /** A line that `strip()`s to something starting with a code fence. */
  predicate IsFenceLine(line: string)
  {
    StartsWith(Strip(line), "```")
  }

  function NotFence(line: string): bool
  {
    !IsFenceLine(line)
  }

  /** `strip_md_fence` of utils.py: the lines of the stripped text that
      are not fence lines, joined by "\n". No line of the result is a fence
      line, and each is a line of the stripped input. */
  function StripMdFence(text: string): (r: string)
    ensures forall l :: l in SplitLines(r) ==> !IsFenceLine(l) && l in SplitLines(Strip(text))
  {
    SplitJoinFilter(NotFence, SplitLines(Strip(text)));
    Join("\n", Filter(NotFence, SplitLines(Strip(text))))
  }

  /** The lines of `strip_md_fence`'s output are exactly the non-fence
      lines of the stripped input, in order; only a final empty line can
      be lost by the join. */
  lemma StripMdFenceLines(text: string)
    ensures SplitLines(StripMdFence(text))
            == DropTrailingEmpty(Filter(NotFence, SplitLines(Strip(text))))
  {
    SplitJoinFilter(NotFence, SplitLines(Strip(text)));
  }

  /** The line loop of `extract_html_block`: fence lines toggle the
      "inside a code block" state and are dropped, as are the lines inside. */
  function DropFenced(isFence: string -> bool, lines: seq<string>, inBlock: bool): seq<string>
  {
    if |lines| == 0 then []
    else if isFence(lines[0]) then DropFenced(isFence, lines[1..], !inBlock)
    else if !inBlock then [lines[0]] + DropFenced(isFence, lines[1..], inBlock)
    else DropFenced(isFence, lines[1..], inBlock)
  }

  /** Number of fence lines. */
  function FenceCount(isFence: string -> bool, lines: seq<string>): nat
  {
    if |lines| == 0 then 0
    else FenceCount(isFence, lines[..|lines| - 1]) + (if isFence(lines[|lines| - 1]) then 1 else 0)
  }

  /** Reference definition: line i is kept iff it is not a fence line and
      an even number of fence lines come before it. */
  function KeptByParity(isFence: string -> bool, lines: seq<string>): seq<string>
  {
    if |lines| == 0 then []
    else
      var n := |lines| - 1;
      KeptByParity(isFence, lines[..n])
      + (if !isFence(lines[n]) && FenceCount(isFence, lines[..n]) % 2 == 0 then [lines[n]] else [])
  }

  /** Running the loop on `suf` in the state `pre` leaves it in (`odd`:
      an odd number of fence lines so far) keeps what the parity
      definition keeps of `suf` after `pre`. */
  lemma {:induction false} DropFencedFrom(isFence: string -> bool, pre: seq<string>, suf: seq<string>, odd: bool)
    requires odd <==> FenceCount(isFence, pre) % 2 == 1
    ensures KeptByParity(isFence, pre + suf) == KeptByParity(isFence, pre) + DropFenced(isFence, suf, odd)
    decreases |suf|
  {
    if |suf| == 0 {
      assert pre + suf == pre;
    } else {
      var x, rest := suf[0], suf[1..];
      assert suf == [x] + rest;
      assert pre + suf == (pre + [x]) + rest;
      var odd' := if isFence(x) then !odd else odd;
      var e := if !isFence(x) && !odd then [x] else [];
      ParitySnoc(isFence, pre, x, odd);
      DropFencedFrom(isFence, pre + [x], rest, odd');
      DropFencedCons(isFence, x, rest, odd);
      Assemble(KeptByParity(isFence, pre), e, DropFenced(isFence, rest, odd'));
    }
  }

  lemma Assemble(a: seq<string>, e: seq<string>, b: seq<string>)
    ensures (a + e) + b == a + (e + b)
  {
  }

  /** One more line at the end: kept if not a fence and outside a block,
      and the parity flips at a fence. */
  lemma ParitySnoc(isFence: string -> bool, pre: seq<string>, x: string, odd: bool)
    requires odd <==> FenceCount(isFence, pre) % 2 == 1
    ensures (if isFence(x) then !odd else odd) <==> FenceCount(isFence, pre + [x]) % 2 == 1
    ensures KeptByParity(isFence, pre + [x])
            == KeptByParity(isFence, pre) + (if !isFence(x) && !odd then [x] else [])
  {
    assert (pre + [x])[..|pre|] == pre;
  }

  /** One line off the front of the loop. */
  lemma DropFencedCons(isFence: string -> bool, x: string, rest: seq<string>, odd: bool)
    ensures DropFenced(isFence, [x] + rest, odd)
            == (if !isFence(x) && !odd then [x] else []) + DropFenced(isFence, rest, if isFence(x) then !odd else odd)
  {
    assert ([x] + rest)[1..] == rest;
  }

  /** The line loop of `extract_html_block` agrees with the parity
      definition. */
  lemma DropFencedByParity(isFence: string -> bool, lines: seq<string>)
    ensures DropFenced(isFence, lines, false) == KeptByParity(isFence, lines)
  {
    DropFencedFrom(isFence, [], lines, false);
    assert [] + lines == lines;
  }

  /** The stripped text `extract_html_block` searches. */
  function FenceFreeText(content: string): (full: string)
    ensures Trimmed(full)
  {
    Strip(Join("\n", DropFenced(IsFenceLine, SplitLines(content), false)))
  }

  /** Where the document starts: the first "<!DOCTYPE html>", else the
      first "<html>". */
  function DocumentStart(full: string): (r: Option<nat>)
    ensures r.Some? ==> OccursAt(full, "<!DOCTYPE html>", r.value) || OccursAt(full, "<html>", r.value)
    ensures r.Some? ==>
      || (OccursAt(full, "<!DOCTYPE html>", r.value) && Find(full, "<!DOCTYPE html>") == r)
      || (Find(full, "<!DOCTYPE html>").None? && OccursAt(full, "<html>", r.value) && Find(full, "<html>") == r)
    ensures r.None? ==> Find(full, "<!DOCTYPE html>").None? && Find(full, "<html>").None?
  {
    match Find(full, "<!DOCTYPE html>")
    case Some(i) => Some(i)
    case None => Find(full, "<html>")
  }

  /** The span from an opening tag through a later "</html>" starts with
      that opening tag, ends with "</html>" and is left alone by `Strip`:
      the closing tag cannot start inside an opening tag, whose only '<'
      is its first character. */
  lemma SpanFacts(full: string, start: nat, end: nat)
    requires OccursAt(full, "<!DOCTYPE html>", start) || OccursAt(full, "<html>", start)
    requires OccursAt(full, "</html>", end) && end > start
    ensures OccursAt(full, "<!DOCTYPE html>", start) ==> StartsWith(full[start..end + 7], "<!DOCTYPE html>")
    ensures OccursAt(full, "<html>", start) ==> StartsWith(full[start..end + 7], "<html>")
    ensures EndsWith(full[start..end + 7], "</html>")
    ensures Strip(full[start..end + 7]) == full[start..end + 7]
  {
    var span := full[start..end + 7];
    if OccursAt(full, "<!DOCTYPE html>", start) {
      OpeningTagFirst(full, "<!DOCTYPE html>", start, end);
    }
    if OccursAt(full, "<html>", start) {
      OpeningTagFirst(full, "<html>", start, end);
    }
    ClosingTagLast(full, start, end);
    assert span[0] == '<' by {
      assert span[0] == full[start];
    }
    assert Trimmed(span);
  }

  /** A later "</html>" cannot start inside an opening tag whose only '<'
      is its first character, so the span starts with the whole tag. */
  lemma OpeningTagFirst(full: string, tag: string, start: nat, end: nat)
    requires OccursAt(full, tag, start) && OccursAt(full, "</html>", end) && end > start
    requires forall d :: 1 <= d < |tag| ==> tag[d] != '<'
    ensures start + |tag| <= end + 7 && StartsWith(full[start..end + 7], tag)
  {
    assert full[end] == '<' by {
      assert full[end..end + 7][0] == full[end];
    }
    assert forall d :: 0 <= d < |tag| ==> full[start + d] == tag[d] by {
      forall d | 0 <= d < |tag| ensures full[start + d] == tag[d] {
        assert full[start..start + |tag|][d] == full[start + d];
      }
    }
    assert full[start..end + 7][..|tag|] == full[start..start + |tag|];
  }

  /** The span ends with the closing tag it was cut at. */
  lemma ClosingTagLast(full: string, start: nat, end: nat)
    requires OccursAt(full, "</html>", end) && end > start
    ensures var span := full[start..end + 7];
      EndsWith(span, "</html>") && span[|span| - 1] == '>'
  {
    var span := full[start..end + 7];
    assert span[|span| - 7..] == full[end..end + 7];
  }

  /** `extract_html_block`: with the fenced parts dropped, the span from
      the document start through the last "</html>" when that closing tag
      follows the start, else the whole (stripped) text. */
  function ExtractHtmlBlock(content: string): (r: string)
    ensures r == Document(Strip(Join("\n", KeptByParity(IsFenceLine, SplitLines(content)))))
  {
    DropFencedByParity(IsFenceLine, SplitLines(content));
    Document(FenceFreeText(content))
  }

  /** The document inside trimmed text: the span from its start through
      the last "</html>" when that closing tag follows the start, else the
      whole text. */
  function Document(full: string): (r: string)
    requires Trimmed(full)
    ensures var start := DocumentStart(full);
      var end := RFind(full, "</html>");
      if start.Some? && end.Some? && end.value > start.value then
        && (StartsWith(r, "<!DOCTYPE html>") || StartsWith(r, "<html>"))
        && EndsWith(r, "</html>")
        && r == full[start.value..end.value + 7]
      else r == full
  {
    var start := DocumentStart(full);
    var end := RFind(full, "</html>");
    if start.Some? && end.Some? && end.value > start.value then
      StrippedSpan(full, start.value, end.value)
    else Strip(full)
  }

  /** The stripped span from an opening tag through a later "</html>". */
  function StrippedSpan(full: string, start: nat, end: nat): (span: string)
    requires OccursAt(full, "<!DOCTYPE html>", start) || OccursAt(full, "<html>", start)
    requires OccursAt(full, "</html>", end) && end > start
    ensures StartsWith(span, "<!DOCTYPE html>") || StartsWith(span, "<html>")
    ensures EndsWith(span, "</html>")
    ensures span == full[start..end + 7]
  {
    SpanFacts(full, start, end);
    Strip(full[start..end + 7])
  }
}
