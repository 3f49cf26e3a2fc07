/** scripts/design_agent.py: picks the oldest draft that has no HTML page
    yet for the requested language, asks the language model to lay it out
    as an HTML page, and saves the page as "<draft base>-<lang>.html".
    Storage listings and reads, and the model's reply, are parameters; the
    prompt's fixed wording and style sheet are an opaque `Wording`. */
module DesignAgent {
  import opened Wrappers
  import opened Strings
  import opened Lines
  import opened Seqs
  import opened Ordering
  import opened Dicts
  import opened Utils
  import opened Pending

  /** The key of a draft: its base name without extension. */
  function DraftKey(r: string): string
  {
    SplitExtRoot(GetBasename(r))
  }

  /** The key an HTML page matches: its base name without extension, up
      to the first '-'. */
  function HtmlKey(h: string): (k: string)
    ensures '-' !in k
  {
    BeforeDash(SplitExtRoot(GetBasename(h)))
  }

  /** The pages for language `lang`: names ending in "-<lang>.html". */
  predicate IsPageFor(lang: string, h: string)
  {
    EndsWith(h, "-" + lang + ".html")
  }

  /** `html_keys`: the keys of the pages for `lang`. */
  function HtmlKeys(htmls: seq<string>, lang: string): set<string>
  {
    set h | h in htmls && IsPageFor(lang, h) :: HtmlKey(h)
  }

  function NotIn(ks: set<string>): string -> bool
  {
    k => k !in ks
  }

  /** `[d[k] for k in ks]`. */
  function LookupAll(d: Dict, ks: seq<string>): (vs: seq<string>)
    requires forall k :: k in ks ==> k in Keys(d)
    ensures |vs| == |ks|
    ensures forall i :: 0 <= i < |ks| ==> (ks[i], vs[i]) in d
  {
    if |ks| == 0 then []
    else
      assert ks[0] in ks;
      [Get(d, ks[0]).value] + LookupAll(d, ks[1..])
  }

  /** `find_pending_rascunhos`: the drafts, one per key (the last one
      listed wins), whose key is the key of no page for `lang`, in
      ascending key order. */
  function FindPendingRascunhos(rascunhos: seq<string>, htmls: seq<string>, lang: string): (pending: seq<string>)
    ensures IsPendingSet(DraftKey, rascunhos, HtmlKeys(htmls, lang), pending)
  {
    var byKey := Comprehension(DraftKey, rascunhos);
    var open := Filter(NotIn(HtmlKeys(htmls, lang)), KeyList(byKey));
    OpenKeys(byKey, HtmlKeys(htmls, lang));
    SortByMembers(Id, open);
    SortByDistinct(Id, open);
    var pending := LookupAll(byKey, SortBy(Id, open));
    LookedUpKeysPending(DraftKey, rascunhos, HtmlKeys(htmls, lang), SortBy(Id, open), pending);
    pending
  }

  /** The keys still open are the dict's keys outside `done`, once each. */
  lemma OpenKeys(byKey: Dict, done: set<string>)
    requires UniqueKeys(byKey)
    ensures forall k :: k in Filter(NotIn(done), KeyList(byKey)) <==> k in Keys(byKey) && k !in done
    ensures DistinctBy(Id, Filter(NotIn(done), KeyList(byKey)))
  {
    KeyListMembers(byKey);
    assert DistinctBy(Id, KeyList(byKey));
    FilterDistinct(Id, NotIn(done), KeyList(byKey));
  }

  /** Pages that are not for `lang` make no difference: adding them to the
      listing (or removing them) leaves the pending drafts unchanged. */
  lemma LanguageIsolation(rascunhos: seq<string>, htmls: seq<string>, others: seq<string>, lang: string)
    requires forall h :: h in others ==> !IsPageFor(lang, h)
    ensures FindPendingRascunhos(rascunhos, htmls + others, lang) == FindPendingRascunhos(rascunhos, htmls, lang)
  {
    assert HtmlKeys(htmls + others, lang) == HtmlKeys(htmls, lang) by {
      assert forall h :: h in htmls + others <==> h in htmls || h in others;
    }
  }

  /** A draft whose key contains '-' can never be matched: whatever pages
      are listed, a draft with that key stays pending. */
  lemma DashedDraftStaysPending(rascunhos: seq<string>, htmls: seq<string>, lang: string, r: string)
    requires r in rascunhos && '-' in DraftKey(r)
    ensures DraftKey(r) in Image(DraftKey, FindPendingRascunhos(rascunhos, htmls, lang))
  {
    assert DraftKey(r) in Image(DraftKey, rascunhos);
    assert DraftKey(r) !in HtmlKeys(htmls, lang);
  }

  /** The page saved for key `base` in language `lang` is a page for
      `lang` whose key is `base`, when `base` has neither '-' nor '/' and
      `lang` has no '/'. */
  lemma PageKey(folder: string, base: string, lang: string)
    requires '-' !in base && '/' !in base && '/' !in lang
    ensures IsPageFor(lang, PagePath(folder, base, lang))
    ensures HtmlKey(PagePath(folder, base, lang)) == base
  {
    var name := base + "-" + lang;
    var p := PagePath(folder, base, lang);
    assert IsPageFor(lang, p) by {
      assert p == (folder + "/" + base) + ("-" + lang + ".html");
    }
    assert GetBasename(p) == name + ".html";
    assert SplitExtRoot(name + ".html") == name by {
      assert name[|base|] == '-';
      RootOfHtmlName(name);
    }
    BeforeDashOf(base, lang);
  }

  /** The page saved for a draft whose key `base` has no '-' (and a
      language code without '/') matches it: once the page is listed, no
      draft with that key is pending for that language. */
  lemma SavedPageClearsDraft(rascunhos: seq<string>, htmls: seq<string>, folder: string, lang: string, base: string)
    requires '-' !in base && '/' !in base && '/' !in lang
    ensures HtmlKey(PagePath(folder, base, lang)) == base
    ensures forall p :: p in FindPendingRascunhos(rascunhos, htmls + [PagePath(folder, base, lang)], lang) ==>
                          DraftKey(p) != base
  {
    var out := PagePath(folder, base, lang);
    PageKey(folder, base, lang);
    assert out in htmls + [out];
    assert base in HtmlKeys(htmls + [out], lang);
    var pending := FindPendingRascunhos(rascunhos, htmls + [out], lang);
    forall p | p in pending ensures DraftKey(p) != base {
      assert DraftKey(p) in Image(DraftKey, pending);
    }
  }

  /** The fixed wording of the prompt: the two headers and the style sheet. */
  datatype Wording = Wording(headerPt: string, headerEn: string, css: string)

  /** The fields of a parsed draft the stage reads: `None` where the JSON
      object has no such key. */
  datatype DraftDoc = DraftDoc(theme: Option<string>, topics: Option<seq<string>>, draft: Option<Dict>)

  /** One topic's part of the paragraph block. */
  function Section(t: string, d: Dict): string
  {
    "\n<h2>" + t + "</h2>\n<p>" + Get(d, t).GetOr("") + "</p>"
  }

  /** The paragraph block: the sections of the topics, in topic order. */
  function ParagraphBlock(topics: seq<string>, d: Dict): string
  {
    if |topics| == 0 then ""
    else ParagraphBlock(topics[..|topics| - 1], d) + Section(topics[|topics| - 1], d)
  }

  /** The block of a list of topics is the blocks of its parts, one after
      the other: every topic contributes exactly its own section, at its
      own place. */
  lemma {:induction false} ParagraphBlockAppend(a: seq<string>, b: seq<string>, d: Dict)
    ensures ParagraphBlock(a + b, d) == ParagraphBlock(a, d) + ParagraphBlock(b, d)
    decreases |b|
  {
    if |b| == 0 {
      assert a + b == a;
    } else {
      var n := |b| - 1;
      assert (a + b)[..|a + b| - 1] == a + b[..n];
      assert (a + b)[|a + b| - 1] == b[n];
      ParagraphBlockAppend(a, b[..n], d);
      assert ParagraphBlock(b, d) == ParagraphBlock(b[..n], d) + Section(b[n], d);
    }
  }

  /** A topic missing from the draft mapping gets an empty paragraph. */
  lemma MissingTopicIsEmpty(t: string, d: Dict)
    requires t !in Keys(d)
    ensures ParagraphBlock([t], d) == "\n<h2>" + t + "</h2>\n<p></p>"
  {
    assert [t][..0] == [];
  }

  function Header(w: Wording, lang: string): (h: string)
  {
    if lang == "pt" then w.headerPt else w.headerEn
  }

  /** `"\n".join(f"- {t}" for t in topics)`. */
  function TopicList(topics: seq<string>): string
  {
    Join("\n", seq(|topics|, i requires 0 <= i < |topics| => "- " + topics[i]))
  }

  /** `build_prompt`: `None` where the draft has no "draft" mapping and
      there is a topic to look up (a `KeyError`); otherwise the header for
      the language, theme, topic list, style sheet and paragraph block. */
  function BuildPrompt(w: Wording, theme: string, topics: seq<string>, draft: Option<Dict>, lang: string)
    : (prompt: Option<string>)
    ensures prompt.None? <==> draft.None? && |topics| > 0
    ensures prompt.Some? ==> StartsWith(prompt.value, Header(w, lang) + "\nTheme: " + theme + "\n")
    ensures prompt.Some? ==> EndsWith(prompt.value, ParagraphBlock(topics, draft.GetOr([])))
    ensures prompt.Some? ==>
              exists i: nat :: OccursAt(prompt.value, "\nEmbed this CSS exactly in the <style> tag:\n" + w.css + "\n", i)
  {
    if draft.None? && |topics| > 0 then None
    else
      var d := draft.GetOr([]);
      var front := Header(w, lang) + "\nTheme: " + theme + "\n";
      var middle := "Topics to cover:\n" + TopicList(topics);
      var css := "\nEmbed this CSS exactly in the <style> tag:\n" + w.css + "\n";
      var block := ParagraphBlock(topics, d);
      var lead := "Paragraphs already generated (do NOT rephrase):\n";
      var p := front + middle + css + (lead + block);
      PromptFrame(front, middle, css, lead, block);
      Some(p)
  }

  /** Where the parts of a prompt sit in their concatenation. */
  lemma PromptFrame(front: string, middle: string, css: string, lead: string, block: string)
    ensures var p := front + middle + css + (lead + block);
      StartsWith(p, front) && EndsWith(p, block) && OccursAt(p, css, |front| + |middle|)
  {
    var p := front + middle + css + (lead + block);
    assert p == front + (middle + css + lead) + block;
    assert p[..|front|] == front;
    assert p[|p| - |block|..] == block;
    assert p == (front + middle) + css + (lead + block);
    assert p[|front| + |middle|..|front| + |middle| + |css|] == css;
  }

  /** The two headers differ only in which one "pt" selects. */
  lemma LanguageSwitch(w: Wording, theme: string, topics: seq<string>, d: Dict, lang: string)
    ensures BuildPrompt(w, theme, topics, Some(d), lang).Some?
    ensures lang == "pt" ==> StartsWith(BuildPrompt(w, theme, topics, Some(d), lang).value, w.headerPt)
    ensures lang != "pt" ==> StartsWith(BuildPrompt(w, theme, topics, Some(d), lang).value, w.headerEn)
  {
    var p := BuildPrompt(w, theme, topics, Some(d), lang).value;
    var front := Header(w, lang) + "\nTheme: " + theme + "\n";
    assert p[..|front|] == front;
    assert front[..|Header(w, lang)|] == Header(w, lang);
    assert p[..|Header(w, lang)|] == front[..|Header(w, lang)|];
  }

  /** Where the page for draft key `base` in language `lang` is saved. */
  function PagePath(folder: string, base: string, lang: string): (path: string)
    ensures StartsWith(path, folder + "/")
    ensures '/' !in base && '/' !in lang ==> GetBasename(path) == base + "-" + lang + ".html"
  {
    var file := base + "-" + lang + ".html";
    var path := folder + "/" + base + "-" + lang + ".html";
    assert path == folder + "/" + file;
    assert path[..|folder| + 1] == folder + "/";
    if '/' !in base && '/' !in lang then
      assert '/' !in file;
      BasenameOfPath(folder, file);
      path
    else path
  }

  /** What a run of the stage ends in. */
  datatype DesignOutcome =
    | ConfigError(error: EnvError)
    | NothingPending
    | UnreadableDraft(target: string)
    | MissingThemeOrTopics(target: string)
    | NoDraftMapping(target: string)
    | Saved(target: string, prompt: string, path: string, page: string)

  /** `main` for language `lang` (the command line's `--lang`, "en" by
      default). `listing(folder)` is the storage listing under "folder/",
      `load(name)` the parsed draft (`None` when the download or the JSON
      parse fails), `reply(prompt)` the language model's answer. */
  function DesignRun(env: map<string, string>, lang: string, w: Wording, listing: string -> seq<string>,
                     load: string -> Option<DraftDoc>, reply: string -> string): (out: DesignOutcome)
    ensures out.ConfigError? <==>
              GetEnv(env, "BUCKET_NAME", None, true).Failure? || GetEnv(env, "OPENAI_API_KEY", None, true).Failure?
    ensures !out.ConfigError? ==>
              var rascunhos := FilterJsonBlobs(listing(GetEnvOr(env, "RASCUNHO_FOLDER", "rascunho")));
              var htmls := listing(GetEnvOr(env, "HTML_FOLDER", "htmlblog"));
              && (out.NothingPending? <==> Image(DraftKey, rascunhos) <= HtmlKeys(htmls, lang))
              && (!out.NothingPending? ==>
                    && out.target in rascunhos
                    && LastWith(DraftKey, DraftKey(out.target), rascunhos) == Some(out.target)
                    && DraftKey(out.target) !in HtmlKeys(htmls, lang)
                    && forall r :: r in rascunhos && DraftKey(r) !in HtmlKeys(htmls, lang) ==>
                                     LexLe(DraftKey(out.target), DraftKey(r)))
    ensures out.UnreadableDraft? <==> !out.ConfigError? && !out.NothingPending? && load(out.target).None?
    ensures out.MissingThemeOrTopics? <==>
              && !out.ConfigError? && !out.NothingPending? && load(out.target).Some?
              && var doc := load(out.target).value;
                 doc.theme.None? || doc.theme.value == "" || doc.topics.None? || doc.topics.value == []
    ensures out.NoDraftMapping? <==>
              && !out.ConfigError? && !out.NothingPending? && load(out.target).Some?
              && var doc := load(out.target).value;
                 && doc.theme.Some? && doc.theme.value != "" && doc.topics.Some? && doc.topics.value != []
                 && BuildPrompt(w, doc.theme.value, doc.topics.value, doc.draft, lang).None?
    ensures out.Saved? ==>
              && out.path == PagePath(GetEnvOr(env, "HTML_FOLDER", "htmlblog"), DraftKey(out.target), lang)
              && out.page == Strip(reply(out.prompt))
              && load(out.target).Some?
              && var doc := load(out.target).value;
                 && doc.theme.Some? && doc.theme.value != "" && doc.topics.Some? && doc.topics.value != []
                 && BuildPrompt(w, doc.theme.value, doc.topics.value, doc.draft, lang) == Some(out.prompt)
  {
    match GetEnv(env, "BUCKET_NAME", None, true)
    case Failure(e) => ConfigError(e)
    case Success(_) =>
      var rascunhoFolder := GetEnvOr(env, "RASCUNHO_FOLDER", "rascunho");
      var htmlFolder := GetEnvOr(env, "HTML_FOLDER", "htmlblog");
      match GetEnv(env, "OPENAI_API_KEY", None, true)
      case Failure(e) => ConfigError(e)
      case Success(_) =>
        var rascunhos := FilterJsonBlobs(listing(rascunhoFolder));
        var htmls := listing(htmlFolder);
        var pending := FindPendingRascunhos(rascunhos, htmls, lang);
        PendingHeadIsOldest(DraftKey, rascunhos, HtmlKeys(htmls, lang), pending);
        if |pending| == 0 then NothingPending
        else
          DesignFor(pending[0], load(pending[0]), w, lang, htmlFolder, reply)
  }

  /** The part of `main` after the target draft is chosen: `loaded` is
      the parsed draft, `None` when reading it failed. */
  function DesignFor(target: string, loaded: Option<DraftDoc>, w: Wording, lang: string, htmlFolder: string,
                     reply: string -> string): (out: DesignOutcome)
    ensures !out.ConfigError? && !out.NothingPending? && out.target == target
    ensures out.UnreadableDraft? <==> loaded.None?
    ensures out.MissingThemeOrTopics? <==>
              && loaded.Some?
              && (loaded.value.theme.None? || loaded.value.theme.value == ""
                  || loaded.value.topics.None? || loaded.value.topics.value == [])
    ensures out.NoDraftMapping? <==>
              && loaded.Some? && !out.MissingThemeOrTopics?
              && BuildPrompt(w, loaded.value.theme.value, loaded.value.topics.value, loaded.value.draft, lang).None?
    ensures out.Saved? ==>
              && out.path == PagePath(htmlFolder, DraftKey(target), lang)
              && out.page == Strip(reply(out.prompt))
              && loaded.Some?
              && var doc := loaded.value;
                 && doc.theme.Some? && doc.theme.value != "" && doc.topics.Some? && doc.topics.value != []
                 && BuildPrompt(w, doc.theme.value, doc.topics.value, doc.draft, lang) == Some(out.prompt)
  {
    match loaded
    case None => UnreadableDraft(target)
    case Some(doc) =>
      var topics := doc.topics.GetOr([]);
      if doc.theme.None? || doc.theme.value == "" || topics == [] then MissingThemeOrTopics(target)
      else
        match BuildPrompt(w, doc.theme.value, topics, doc.draft, lang)
        case None => NoDraftMapping(target)
        case Some(prompt) =>
          Saved(target, prompt, PagePath(htmlFolder, DraftKey(target), lang), Strip(reply(prompt)))
  }
}
