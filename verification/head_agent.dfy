/** scripts/head_agent.py: reads the newest topic cards, asks the language
    model for the theme and topics of the next article, and saves its
    answer as a new card named after the current UTC time. Storage, the
    model, the JSON codec and the clock are parameters; the prompt's fixed
    wording is an opaque `HeadWording`. */
module HeadAgent {
  import opened Wrappers
  import opened Strings
  import opened Patterns
  import opened Lines
  import opened Seqs
  import opened Ordering
  import opened Utils

  /** The padding entry for a missing article. */
  const Empty := "vazio"

  /** How many of the newest cards the stage reads (`n=5`). */
  const Window := 5

  /** The texts `fetch_last_jsons` returns, as a reference definition: the
      downloads of the `k = min(n, #cards)` cards with the greatest base
      names, oldest first, then `n - k` times "vazio". */
  function LastJsons(names: seq<string>, n: nat, download: string -> string): (texts: seq<string>)
    ensures |texts| == n
  {
    Padded(SortByTimestamp(FilterJsonBlobs(names)), n, download)
  }

  /** The downloads of the last `k = min(n, |blobs|)` of `blobs`, in
      order, padded with "vazio" to `n` entries. */
  function Padded(blobs: seq<string>, n: nat, download: string -> string): (texts: seq<string>)
    ensures |texts| == n
  {
    var k := if n < |blobs| then n else |blobs|;
    seq(n, i requires 0 <= i < n => if i < k then download(blobs[|blobs| - k + i]) else Empty)
  }

  /** `fetch_last_jsons`: the sorted card listing, then the window and
      padding loop. */
  method FetchLastJsons(names: seq<string>, n: nat, download: string -> string) returns (texts: seq<string>)
    ensures texts == LastJsons(names, n, download)
  {
    var blobs := SortByTimestamp(FilterJsonBlobs(names));
    texts := PadRecent(blobs, n, download);
  }

  /** The loop of `fetch_last_jsons` over the sorted cards: Python's
      `json_blobs[-n:]` (all of them when n == 0, since `-0` is `0`), then
      one download or "vazio" per position. */
  method PadRecent(blobs: seq<string>, n: nat, download: string -> string) returns (texts: seq<string>)
    ensures texts == Padded(blobs, n, download)
  {
    var recent := if |blobs| >= n && n > 0 then blobs[|blobs| - n..] else blobs;
    ghost var k := if n < |blobs| then n else |blobs|;
    texts := [];
    var i := 0;
    while i < n
      invariant 0 <= i <= n && |texts| == i
      invariant n > 0 ==> |recent| == k
      invariant n > 0 ==> forall j :: 0 <= j < k ==> recent[j] == blobs[|blobs| - k + j]
      invariant forall j :: 0 <= j < i ==>
                  texts[j] == if j < k then download(blobs[|blobs| - k + j]) else Empty
    {
      if i < |recent| {
        texts := texts + [download(recent[i])];
      } else {
        texts := texts + [Empty];
      }
      i := i + 1;
    }
  }

  /** The window holds the newest cards: no card left out of it has a
      greater base name than a card in it. */
  lemma WindowIsNewest(names: seq<string>, n: nat)
    ensures var blobs := SortByTimestamp(FilterJsonBlobs(names));
      var k := if n < |blobs| then n else |blobs|;
      forall i, j :: 0 <= i < |blobs| - k <= j < |blobs| ==>
        LexLe(GetBasename(blobs[i]), GetBasename(blobs[j]))
  {
  }

  /** Indices of the entries that are not "vazio", in increasing order. */
  function NonEmptyIndices(texts: seq<string>): (ix: seq<nat>)
    ensures forall j :: 0 <= j < |ix| ==> ix[j] < |texts| && texts[ix[j]] != Empty
    ensures forall i :: 0 <= i < |texts| && texts[i] != Empty ==> i in ix
    ensures forall j, l :: 0 <= j < l < |ix| ==> ix[j] < ix[l]
  {
    if |texts| == 0 then []
    else
      var n := |texts| - 1;
      var init := NonEmptyIndices(texts[..n]);
      init + (if texts[n] != Empty then [n] else [])
  }

  /** "Article {i+1}: {text}". */
  function Label(i: nat, text: string): string
  {
    "Article " + Decimal(i + 1) + ": " + text
  }

  /** The labelled articles, in order. */
  function Articles(texts: seq<string>): (arts: seq<string>)
    ensures var ix := NonEmptyIndices(texts);
      |arts| == |ix| && forall j :: 0 <= j < |ix| ==> arts[j] == Label(ix[j], texts[ix[j]])
  {
    var ix := NonEmptyIndices(texts);
    seq(|ix|, j requires 0 <= j < |ix| => Label(ix[j], texts[ix[j]]))
  }

  /** Which prompt `build_prompt` chooses. */
  datatype HeadPrompt = FirstPost | Continuation(articles: string)

  /** `build_prompt`: the first-post prompt exactly when every entry is
      "vazio"; otherwise the labelled non-empty entries, each with its
      original position, separated by blank lines. */
  function BuildPrompt(texts: seq<string>): (p: HeadPrompt)
    ensures p.FirstPost? <==> forall i :: 0 <= i < |texts| ==> texts[i] == Empty
    ensures p.Continuation? ==> p.articles == Join("\n\n", Articles(texts))
  {
    var ix := NonEmptyIndices(texts);
    if |ix| == 0 then FirstPost
    else
      assert texts[ix[0]] != Empty;
      Continuation(Join("\n\n", Articles(texts)))
  }

  /** The fixed wording around the articles. */
  datatype HeadWording = HeadWording(firstPost: string, intro: string, outro: string)

  /** The prompt text sent to the model. */
  function Render(w: HeadWording, p: HeadPrompt): string
  {
    match p
    case FirstPost => w.firstPost
    case Continuation(articles) => w.intro + articles + "\n\n" + w.outro
  }

  predicate IsAsciiLetter(c: char)
  {
    'a' <= c <= 'z' || 'A' <= c <= 'Z'
  }

  /** Length of the run of ASCII letters `s` starts with. */
  function LetterRun(s: string): (n: nat)
    ensures n <= |s|
    ensures forall i :: 0 <= i < n ==> IsAsciiLetter(s[i])
    ensures n < |s| ==> !IsAsciiLetter(s[n])
  {
    if |s| > 0 && IsAsciiLetter(s[0]) then
      var n := 1 + LetterRun(s[1..]);
      assert forall i :: 1 <= i < n ==> s[i] == s[1..][i - 1];
      n
    else 0
  }

  /** Length of the match of `^```[a-z]*\s*` (case-insensitive), or 0. */
  function OpeningFence(t: string): (n: nat)
    ensures n <= |t|
  {
    if StartsWith(t, "```") then
      var a := 3 + LetterRun(t[3..]);
      a + LeadingSpaces(t[a..])
    else 0
  }

  /** `strip_md_fence` of head_agent.py: strip, delete an opening fence
      with its language tag and the whitespace after it, delete a closing
      fence with the whitespace before it, strip. The result is trimmed,
      and text without a backtick only loses its outer whitespace. */
  function HeadStripFence(text: string): (r: string)
    ensures Trimmed(r)
    ensures '`' !in text ==> r == Strip(text)
  {
    var t1 := Strip(text);
    var t2 := t1[OpeningFence(t1)..];
    var t3 := if EndsWith(t2, "```") then TrimEnd(t2[..|t2| - 3]) else t2;
    if '`' !in text then NoBacktickNoFence(text); Strip(t3) else Strip(t3)
  }

  /** Without a backtick there is no fence to delete, at either end. */
  lemma NoBacktickNoFence(text: string)
    requires '`' !in text
    ensures var t1 := Strip(text);
      && OpeningFence(t1) == 0
      && !EndsWith(t1, "```")
      && Strip(t1) == Strip(text)
  {
    var t1 := Strip(text);
    StripFrame(text);
    assert '`' !in t1 by {
      var a := LeadingSpaces(text);
      assert forall i :: 0 <= i < |t1| ==> t1[i] == text[a + i];
    }
    assert !StartsWith(t1, "```") by {
      if |t1| >= 3 {
        assert t1[..3][0] == t1[0];
      }
    }
    assert !EndsWith(t1, "```") by {
      if |t1| >= 3 {
        assert t1[|t1| - 3..][0] == t1[|t1| - 3];
      }
    }
  }

  /** Round trip: a trimmed JSON body (it starts with '{' or '['), wrapped
      in a "```json" fence, comes back unchanged. */
  lemma FenceRoundTrip(body: string)
    requires |body| > 0 && (body[0] == '{' || body[0] == '[') && Trimmed(body)
    ensures HeadStripFence("```json\n" + body + "\n```") == body
  {
    var w := "```json\n" + body + "\n```";
    assert w[0] == '`' && w[|w| - 1] == '`';
    assert Strip(w) == w;
    JsonFenceOpening(body, w);
    var pre, t2 := "```json\n", body + "\n```";
    assert w == pre + t2 && |pre| == 8;
    assert w[8..] == t2;
    JsonFenceClosing(body, t2);
    assert Strip(body) == body;
  }

  /** What is left after the opening fence loses the closing one. */
  lemma JsonFenceClosing(body: string, t2: string)
    requires Trimmed(body) && t2 == body + "\n```"
    ensures EndsWith(t2, "```") && TrimEnd(t2[..|t2| - 3]) == body
  {
    assert t2[|t2| - 3..] == "```";
    var u := t2[..|t2| - 3];
    assert u == body + "\n";
    TrimEndRun(body, "\n");
  }

  /** The opening "```json" fence and the line break after it are
      eight characters long. */
  lemma JsonFenceOpening(body: string, w: string)
    requires |body| > 0 && !IsSpace(body[0]) && w == "```json\n" + body + "\n```"
    ensures OpeningFence(w) == 8
  {
    assert StartsWith(w, "```") by { assert w[..3] == "```"; }
    var rest := w[3..];
    assert LetterRun(rest) == 4 by {
      assert rest[..4] == "json";
      assert rest[4] == '\n';
    }
    assert LeadingSpaces(w[7..]) == 1 by {
      assert w[7..][0] == '\n' && w[7..][1] == body[0];
    }
  }

  /** A UTC time, as `datetime.utcnow()` returns it. */
  datatype DateTime = DateTime(year: nat, month: nat, day: nat, hour: nat, minute: nat, second: nat)

  /** The field ranges of Python's `datetime`, with the four-digit years
      `%Y` renders without padding questions. */
  predicate ValidDateTime(d: DateTime)
  {
    && 1000 <= d.year <= 9999 && 1 <= d.month <= 12 && 1 <= d.day <= 31
    && d.hour < 24 && d.minute < 60 && d.second < 60
  }

  /** `strftime("%Y%m%d_%H%M%S")`. */
  function StampOf(d: DateTime): (s: string)
    requires ValidDateTime(d)
    ensures |s| == 15 && s[8] == '_'
  {
    DatePart(d) + "_" + TimePart(d)
  }

  function DatePart(d: DateTime): (s: string)
    requires ValidDateTime(d)
    ensures |s| == 8 && AllDigits(s)
  {
    Pad(d.year, 4) + Pad(d.month, 2) + Pad(d.day, 2)
  }

  function TimePart(d: DateTime): (s: string)
    requires ValidDateTime(d)
    ensures |s| == 6 && AllDigits(s)
  {
    Pad(d.hour, 2) + Pad(d.minute, 2) + Pad(d.second, 2)
  }

  /** The instant as one number that orders times chronologically:
      year, month, day, hour, minute, second as successive digit pairs. */
  function Instant(d: DateTime): nat
  {
    ((((d.year * 100 + d.month) * 100 + d.day) * 100 + d.hour) * 100 + d.minute) * 100 + d.second
  }

  /** Appending a digit shifts the value one place. */
  lemma DigitsValueSnoc(s: string, c: char)
    ensures DigitsValue(s + [c]) == 10 * DigitsValue(s) + DigitValue(c)
  {
    assert (s + [c])[..|s|] == s;
  }

  /** The value of a concatenation of digit strings. */
  lemma {:induction false} DigitsValueConcat(a: string, b: string)
    ensures DigitsValue(a + b) == DigitsValue(a) * Pow10(|b|) + DigitsValue(b)
    decreases |b|
  {
    if |b| == 0 {
      assert a + b == a;
    } else {
      var n := |b| - 1;
      var b', c := b[..n], b[n];
      assert b == b' + [c];
      assert a + b == (a + b') + [c];
      DigitsValueSnoc(a + b', c);
      DigitsValueSnoc(b', c);
      DigitsValueConcat(a, b');
      var x, p, y := DigitsValue(a), Pow10(n), DigitsValue(b');
      MulShift(x, p);
    }
  }

  lemma MulShift(x: nat, p: nat)
    ensures x * (10 * p) == 10 * (x * p)
  {
  }

  /** A digit string of length w is worth less than 10^w. */
  lemma {:induction false} DigitsValueBound(s: string)
    requires AllDigits(s)
    ensures DigitsValue(s) < Pow10(|s|)
  {
    if |s| > 0 {
      var n := |s| - 1;
      DigitsValueBound(s[..n]);
    }
  }

  /** Equal-length digit strings compare as Python strings exactly as
      their values compare as numbers. */
  lemma {:induction false} DigitsOrder(a: string, b: string)
    requires |a| == |b| && AllDigits(a) && AllDigits(b)
    ensures LexLe(a, b) <==> DigitsValue(a) <= DigitsValue(b)
    ensures a == b <==> DigitsValue(a) == DigitsValue(b)
    decreases |a|
  {
    if |a| == 0 {
      LexLeRefl(a);
    } else {
      var n := |a| - 1;
      var a', b' := a[..n], b[..n];
      DigitsOrder(a', b');
      assert a == a' + [a[n]] && b == b' + [b[n]];
      LexLeConcat(a', [a[n]], b', [b[n]]);
      assert LexLe([a[n]], [b[n]]) <==> a[n] <= b[n] by {
        assert [a[n]][1..] == [] && [b[n]][1..] == [];
        LexLeRefl([]);
      }
    }
  }

  /** Card names sort as their times do: the stamp of an earlier (or the
      same) instant is never greater, as a Python string, than a later
      one's. */
  lemma StampOrder(d1: DateTime, d2: DateTime)
    requires ValidDateTime(d1) && ValidDateTime(d2)
    ensures LexLe(StampOf(d1), StampOf(d2)) <==> Instant(d1) <= Instant(d2)
  {
    var x1, x2 := DatePart(d1), DatePart(d2);
    var y1, y2 := TimePart(d1), TimePart(d2);
    StampParts(x1, y1, x2, y2);
    PartValues(d1);
    PartValues(d2);
    DigitsOrder(x1, x2);
    DigitsOrder(y1, y2);
    DigitsValueBound(y1);
    DigitsValueBound(y2);
    PairOrder(DigitsValue(x1), DigitsValue(y1), DigitsValue(x2), DigitsValue(y2));
  }

  /** Stamps compare by date first and by time on equal dates. */
  lemma StampParts(x1: string, y1: string, x2: string, y2: string)
    requires |x1| == |x2|
    ensures LexLe(x1 + "_" + y1, x2 + "_" + y2) <==> LexLt(x1, x2) || (x1 == x2 && LexLe(y1, y2))
  {
    assert x1 + "_" + y1 == x1 + ("_" + y1) && x2 + "_" + y2 == x2 + ("_" + y2);
    LexLeConcat(x1, "_" + y1, x2, "_" + y2);
    LexLeConcat("_", y1, "_", y2);
    assert !LexLt("_", "_");
  }

  /** Numbers written as a high part and a six-digit low part compare
      high part first. */
  lemma PairOrder(x1: nat, y1: nat, x2: nat, y2: nat)
    requires y1 < Pow10(6) && y2 < Pow10(6)
    ensures x1 * 1000000 + y1 <= x2 * 1000000 + y2 <==> x1 < x2 || (x1 == x2 && y1 <= y2)
  {
    assert Pow10(6) == 1000000;
    if x1 < x2 {
      assert x1 * 1000000 + 1000000 <= x2 * 1000000;
    } else if x2 < x1 {
      assert x2 * 1000000 + 1000000 <= x1 * 1000000;
    }
  }

  /** The date and time parts are worth the day and the time of day. */
  lemma PartValues(d: DateTime)
    requires ValidDateTime(d)
    ensures DigitsValue(DatePart(d)) == (d.year * 100 + d.month) * 100 + d.day
    ensures DigitsValue(TimePart(d)) == (d.hour * 100 + d.minute) * 100 + d.second
    ensures Instant(d) == DigitsValue(DatePart(d)) * 1000000 + DigitsValue(TimePart(d))
  {
    DateValue(d);
    TimeValue(d);
    InstantSplit(d);
  }

  lemma DateValue(d: DateTime)
    requires ValidDateTime(d)
    ensures DigitsValue(DatePart(d)) == (d.year * 100 + d.month) * 100 + d.day
  {
    ThreeFields(d.year, 4, d.month, d.day);
  }

  lemma TimeValue(d: DateTime)
    requires ValidDateTime(d)
    ensures DigitsValue(TimePart(d)) == (d.hour * 100 + d.minute) * 100 + d.second
  {
    Hundred();
    ThreeFields(d.hour, 2, d.minute, d.second);
  }

  lemma InstantSplit(d: DateTime)
    ensures Instant(d) == ((d.year * 100 + d.month) * 100 + d.day) * 1000000
                          + ((d.hour * 100 + d.minute) * 100 + d.second)
  {
    DayThenTime((d.year * 100 + d.month) * 100 + d.day, d.hour, d.minute, d.second);
  }

  /** Three more digit pairs after `x` are worth `x` shifted six places. */
  lemma DayThenTime(x: nat, h: nat, m: nat, s: nat)
    ensures ((x * 100 + h) * 100 + m) * 100 + s == x * 1000000 + ((h * 100 + m) * 100 + s)
  {
    assert (x * 100 + h) * 100 == x * 10000 + h * 100;
    assert (x * 10000 + h * 100 + m) * 100 == x * 1000000 + h * 10000 + m * 100;
  }

  /** Three zero-padded fields side by side are worth the fields as
      successive digit groups. */
  lemma ThreeFields(p: nat, w: nat, q: nat, r: nat)
    requires p < Pow10(w) && q < 100 && r < 100
    ensures DigitsValue(Pad(p, w) + Pad(q, 2) + Pad(r, 2)) == (p * 100 + q) * 100 + r
  {
    Hundred();
    var u, v, t := Pad(p, w), Pad(q, 2), Pad(r, 2);
    DigitsValueConcat(u, v);
    assert DigitsValue(u + v) == p * 100 + q;
    DigitsValueConcat(u + v, t);
  }

  lemma Hundred()
    ensures Pow10(2) == 100
  {
    assert Pow10(1) == 10;
  }

  /** What a run of the stage ends in. */
  datatype HeadOutcome =
    | ConfigError(error: EnvError)
    | InvalidJson(content: string)
    | Saved(path: string, body: string)

  /** `main`: `listing(folder)` is the storage listing under "folder/",
      `download(name)` a card's text, `reply(prompt)` the model's answer,
      `parse(text)` the re-serialised JSON value (`None` when `json.loads`
      fails) and `now` the UTC clock. The answer is saved only when it
      parses, as "<FICHAUM_FOLDER>/<stamp>.json". */
  function HeadRun(env: map<string, string>, now: DateTime, w: HeadWording, listing: string -> seq<string>,
                   download: string -> string, reply: string -> string, parse: string -> Option<string>)
    : (out: HeadOutcome)
    requires ValidDateTime(now)
    ensures out.ConfigError? <==>
              GetEnv(env, "BUCKET_NAME", None, true).Failure? || GetEnv(env, "OPENAI_API_KEY", None, true).Failure?
    ensures !out.ConfigError? ==>
              var texts := LastJsons(listing(GetEnvOr(env, "FICHAUM_FOLDER", "fichaum")), Window, download);
              var content := HeadStripFence(Strip(reply(Render(w, BuildPrompt(texts)))));
              && (out.InvalidJson? <==> parse(content).None?)
              && (out.InvalidJson? ==> out.content == content)
              && (out.Saved? ==>
                    out.path == GetEnvOr(env, "FICHAUM_FOLDER", "fichaum") + "/" + StampOf(now) + ".json"
                    && out.body == parse(content).value)
  {
    var _ := GetEnvOr(env, "BUCKET_NAME", "linkedin-article");
    var folder := GetEnvOr(env, "FICHAUM_FOLDER", "fichaum");
    match GetEnv(env, "BUCKET_NAME", None, true)
    case Failure(e) => ConfigError(e)
    case Success(_) =>
      match GetEnv(env, "OPENAI_API_KEY", None, true)
      case Failure(e) => ConfigError(e)
      case Success(_) =>
        var texts := LastJsons(listing(folder), Window, download);
        var content := HeadStripFence(Strip(reply(Render(w, BuildPrompt(texts)))));
        match parse(content)
        case None => InvalidJson(content)
        case Some(data) => Saved(folder + "/" + StampOf(now) + ".json", data)
  }

  /** The "linkedin-article" default of BUCKET_NAME never takes effect:
      the storage client looks the variable up again as required, so a
      run without it stops with a configuration error. */
  lemma BucketDefaultShadowed(env: map<string, string>, now: DateTime, w: HeadWording, listing: string -> seq<string>,
                              download: string -> string, reply: string -> string, parse: string -> Option<string>)
    requires ValidDateTime(now) && "BUCKET_NAME" !in env
    ensures GetEnvOr(env, "BUCKET_NAME", "linkedin-article") == "linkedin-article"
    ensures HeadRun(env, now, w, listing, download, reply, parse) == ConfigError(MissingVariable("BUCKET_NAME"))
  {
  }
}
