/** scripts/draft_agent.py: picks the oldest topic card ("ficha") in the
    card folder that has no draft ("rascunho") of the same base name yet,
    has one paragraph written per topic, and saves the draft record under
    the card's time stamp. Storage listings and reads, and the paragraph
    writer, are parameters. */
module DraftAgent {
  import opened Wrappers
  import opened Strings
  import opened Seqs
  import opened Ordering
  import opened Dicts
  import opened Utils
  import opened Pending

  /** `find_pending_fichas`: the cards, one per base name (the last one
      listed wins), whose base name is the base name of no draft, ordered
      by base name. */
  function FindPendingFichas(fichas: seq<string>, rascunhos: seq<string>): (pending: seq<string>)
    ensures IsPendingSet(GetBasename, fichas, Image(GetBasename, rascunhos), pending)
  {
    var byName := Comprehension(GetBasename, fichas);
    var done := Image(GetBasename, rascunhos);
    var unmatched := ValuesExcept(byName, done);
    ValuesExceptFacts(GetBasename, byName, done);
    SortByDistinct(GetBasename, unmatched);
    SortByMembers(GetBasename, unmatched);
    var pending := SortByTimestamp(unmatched);
    assert Image(GetBasename, pending) == Image(GetBasename, unmatched);
    KeptValuesPending(GetBasename, fichas, done, pending);
    pending
  }

  /** The fields of a parsed card the stage reads: `None` where the JSON
      object has no such key. */
  datatype Ficha = Ficha(theme: Option<string>, topics: Option<seq<string>>, timestamp: Option<string>)

  /** The draft record written as JSON: time stamp, theme, topics and the
      topic-to-paragraph mapping. */
  datatype Rascunho = Rascunho(timestamp: string, theme: Option<string>, topics: seq<string>, draft: Dict)

  /** `draft_content[t] = write(t)` for each topic in turn: one entry per
      distinct topic, holding that topic's paragraph. */
  function DraftContent(topics: seq<string>, write: string -> string): (d: Dict)
    ensures UniqueKeys(d)
    ensures Keys(d) == set t | t in topics
    ensures forall e :: e in d ==> e.1 == write(e.0)
  {
    if |topics| == 0 then []
    else
      var n := |topics| - 1;
      assert topics == topics[..n] + [topics[n]];
      Put(DraftContent(topics[..n], write), topics[n], write(topics[n]))
  }

  /** The card's base name with every ".json" removed (`str.replace`,
      case-sensitive). */
  function Stamp(target: string): (stamp: string)
    ensures |stamp| <= |GetBasename(target)|
  {
    RemoveAll(GetBasename(target), ".json")
  }

  /** The draft record built from card `ficha`: theme and topics copied
      unchanged (topics default to the empty list), one paragraph per
      distinct topic, and the card's own time stamp if it has one, else the
      stamp taken from its file name. */
  function BuildRascunho(ficha: Ficha, stamp: string, write: string -> string): (r: Rascunho)
    ensures r.theme == ficha.theme
    ensures r.topics == (if ficha.topics.Some? then ficha.topics.value else [])
    ensures UniqueKeys(r.draft) && Keys(r.draft) == set t | t in r.topics
    ensures forall e :: e in r.draft ==> e.1 == write(e.0)
    ensures ficha.timestamp.Some? ==> r.timestamp == ficha.timestamp.value
    ensures ficha.timestamp.None? ==> r.timestamp == stamp
  {
    var topics := ficha.topics.GetOr([]);
    Rascunho(ficha.timestamp.GetOr(stamp), ficha.theme, topics, DraftContent(topics, write))
  }

  /** Where the draft for `target` is saved: directly in `folder`, with
      the stamp and ".json" as base name. */
  function OutputPath(folder: string, target: string): (path: string)
    ensures StartsWith(path, folder + "/")
    ensures GetBasename(path) == Stamp(target) + ".json"
  {
    var stamp := Stamp(target);
    RemoveAllChars(GetBasename(target), ".json", '/');
    assert folder + "/" + stamp + ".json" == folder + "/" + (stamp + ".json");
    BasenameOfPath(folder, stamp + ".json");
    var path := folder + "/" + stamp + ".json";
    assert path[..|folder| + 1] == folder + "/";
    path
  }

  /** A card named "<stamp>.json", with no other ".json" in its base name,
      gets a draft of the same base name, so it is no longer pending once
      that draft is listed. */
  lemma SavedDraftClearsFicha(fichas: seq<string>, rascunhos: seq<string>, folder: string, target: string, stamp: string)
    requires GetBasename(target) == stamp + ".json"
    requires forall j: nat :: j < |stamp| ==> !OccursAt(stamp + ".json", ".json", j)
    ensures Stamp(target) == stamp
    ensures GetBasename(OutputPath(folder, target)) == GetBasename(target)
    ensures forall p :: p in FindPendingFichas(fichas, rascunhos + [OutputPath(folder, target)]) ==>
                          GetBasename(p) != GetBasename(target)
  {
    RemoveAllTail(stamp, ".json");
    assert folder + "/" + stamp + ".json" == folder + "/" + (stamp + ".json");
    BasenameOfPath(folder, stamp + ".json");
    var out := OutputPath(folder, target);
    var pending := FindPendingFichas(fichas, rascunhos + [out]);
    assert out in rascunhos + [out];
    assert GetBasename(target) in Image(GetBasename, rascunhos + [out]);
    forall p | p in pending ensures GetBasename(p) != GetBasename(target) {
      assert GetBasename(p) in Image(GetBasename, pending);
    }
  }

  /** A card whose base name passes the case-insensitive ".json" filter
      without containing ".json" itself (say "A.JSON") keeps its base name
      as stamp: its draft is named "<base>.json", which does not match the
      card, so the card is still pending after its draft is listed. */
  lemma MisnamedCardStaysPending(fichas: seq<string>, rascunhos: seq<string>, folder: string, target: string)
    requires LastWith(GetBasename, GetBasename(target), fichas) == Some(target)
    requires forall j: nat :: !OccursAt(GetBasename(target), ".json", j)
    requires GetBasename(target) !in Image(GetBasename, rascunhos)
    ensures Stamp(target) == GetBasename(target)
    ensures GetBasename(OutputPath(folder, target)) == GetBasename(target) + ".json"
    ensures target in FindPendingFichas(fichas, rascunhos + [OutputPath(folder, target)])
  {
    var b := GetBasename(target);
    MisnamedOutput(folder, target);
    var out := OutputPath(folder, target);
    var done := Image(GetBasename, rascunhos + [out]);
    ImageSingle(GetBasename, out);
    ImageAppend(GetBasename, rascunhos, [out]);
    assert b != b + ".json";
    PendingMember(GetBasename, fichas, done, FindPendingFichas(fichas, rascunhos + [out]), target);
  }

  /** Such a card keeps its base name as stamp, and its draft's base name
      is that name with ".json" appended. */
  lemma MisnamedOutput(folder: string, target: string)
    requires forall j: nat :: !OccursAt(GetBasename(target), ".json", j)
    ensures Stamp(target) == GetBasename(target)
    ensures GetBasename(OutputPath(folder, target)) == GetBasename(target) + ".json"
  {
    var b := GetBasename(target);
    assert folder + "/" + b + ".json" == folder + "/" + (b + ".json");
    BasenameOfPath(folder, b + ".json");
  }

  /** Every card named "<s>.JSON" in upper case, where `s` holds no
      ".json", is such a card: it passes the case-insensitive filter, and
      its base name holds no ".json" anywhere, since the '.' of ".JSON" is
      followed by upper-case letters and no other letter of ".json" is a
      '.'. */
  lemma UpperCaseCard(folder: string, s: string)
    requires '/' !in s
    requires forall j: nat :: !OccursAt(s, ".json", j)
    ensures IsJsonName(folder + "/" + s + ".JSON")
    ensures GetBasename(folder + "/" + s + ".JSON") == s + ".JSON"
    ensures forall j: nat :: !OccursAt(s + ".JSON", ".json", j)
  {
    UpperSuffixPasses(folder + "/" + s);
    assert folder + "/" + s + ".JSON" == folder + "/" + (s + ".JSON");
    BasenameOfPath(folder, s + ".JSON");
    NoLowerJsonIn(s);
  }

  lemma UpperSuffixPasses(stem: string)
    ensures IsJsonName(stem + ".JSON")
  {
    var name := stem + ".JSON";
    var l := LowerStr(name);
    forall i | 0 <= i < 5 ensures l[|l| - 5..][i] == ".json"[i] {
      assert name[|name| - 5 + i] == ".JSON"[i];
    }
  }

  lemma NoLowerJsonIn(s: string)
    requires forall j: nat :: !OccursAt(s, ".json", j)
    ensures forall j: nat :: !OccursAt(s + ".JSON", ".json", j)
  {
    var b := s + ".JSON";
    forall j: nat ensures !OccursAt(b, ".json", j) {
      if j + 5 <= |s| {
        assert b[j..j + 5] == s[j..j + 5];
        assert !OccursAt(s, ".json", j);
      } else if j + 5 <= |b| {
        UpperTailWindow(s, j);
      }
    }
  }

  /** A window reaching into the ".JSON" suffix is not ".json". */
  lemma UpperTailWindow(s: string, j: nat)
    requires |s| < j + 5 <= |s| + 5
    ensures !OccursAt(s + ".JSON", ".json", j)
  {
    var b := s + ".JSON";
    var w := b[j..j + 5];
    if j == |s| {
      assert w[1] == 'J';
    } else {
      var k := |s| - j;
      assert w[k] == b[|s|] == '.';
    }
  }

  /** The paragraph writer for one card: `write(ficha, topic)` with the
      card fixed. */
  function WriterFor(write: (Ficha, string) -> string, ficha: Ficha): string -> string
  {
    t => write(ficha, t)
  }

  /** What a run of the stage ends in. */
  datatype DraftOutcome =
    | ConfigError(error: EnvError)
    | NothingPending
    | UnreadableFicha(target: string)
    | Saved(target: string, path: string, record: Rascunho)

  /** `main`: configuration, the two listings, the oldest pending card,
      and the draft saved for it. `listing(folder)` is the storage listing
      under "folder/", `load(name)` the parsed card (`None` when the
      download or the JSON parse fails), `write(card, topic)` the
      paragraph the language model returns, stripped. */
  function DraftRun(env: map<string, string>, listing: string -> seq<string>,
                    load: string -> Option<Ficha>, write: (Ficha, string) -> string): (out: DraftOutcome)
    ensures out.ConfigError? <==>
              GetEnv(env, "BUCKET_NAME", None, true).Failure? || GetEnv(env, "OPENAI_API_KEY", None, true).Failure?
    ensures !out.ConfigError? ==>
              var fichas := FilterJsonBlobs(listing(GetEnvOr(env, "FICHAUM_FOLDER", "fichaum")));
              var rascunhos := FilterJsonBlobs(listing(GetEnvOr(env, "RASCUNHO_FOLDER", "rascunho")));
              && (out.NothingPending? <==> Image(GetBasename, fichas) <= Image(GetBasename, rascunhos))
              && (out.UnreadableFicha? || out.Saved? ==>
                    && out.target in fichas
                    && LastWith(GetBasename, GetBasename(out.target), fichas) == Some(out.target)
                    && GetBasename(out.target) !in Image(GetBasename, rascunhos)
                    && forall f :: f in fichas && GetBasename(f) !in Image(GetBasename, rascunhos)
                                   ==> LexLe(GetBasename(out.target), GetBasename(f)))
              && (!out.NothingPending? ==> (out.Saved? <==> load(out.target).Some?))
              && (out.Saved? ==>
                    && out.path == OutputPath(GetEnvOr(env, "RASCUNHO_FOLDER", "rascunho"), out.target)
                    && var ficha := load(out.target).value;
                       out.record == BuildRascunho(ficha, Stamp(out.target), WriterFor(write, ficha)))
  {
    match GetEnv(env, "BUCKET_NAME", None, true)
    case Failure(e) => ConfigError(e)
    case Success(_) =>
      var fichaFolder := GetEnvOr(env, "FICHAUM_FOLDER", "fichaum");
      var rascunhoFolder := GetEnvOr(env, "RASCUNHO_FOLDER", "rascunho");
      match GetEnv(env, "OPENAI_API_KEY", None, true)
      case Failure(e) => ConfigError(e)
      case Success(_) =>
        var fichas := FilterJsonBlobs(listing(fichaFolder));
        var rascunhos := FilterJsonBlobs(listing(rascunhoFolder));
        var pending := FindPendingFichas(fichas, rascunhos);
        PendingHeadIsOldest(GetBasename, fichas, Image(GetBasename, rascunhos), pending);
        if |pending| == 0 then NothingPending
        else
          var target := pending[0];
          match load(target)
          case None => UnreadableFicha(target)
          case Some(ficha) =>
            var record := BuildRascunho(ficha, Stamp(target), WriterFor(write, ficha));
            Saved(target, OutputPath(rascunhoFolder, target), record)
  }
}
