/** scripts/post_blog.py: picks the newest page in the blog folder, takes
    its `<title>` as the post title, cleans the markup the blog platform
    supplies itself, puts the cover image in front and publishes the post.
    Storage, the image model and the publishing call are parameters. */
module PostBlog {
  import opened Wrappers
  import opened Strings
  import opened Seqs
  import opened Ordering
  import opened Utils
  import opened Patterns

  predicate IsHtmlName(name: string)
  {
    EndsWith(LowerStr(name), ".html")
  }

  /** The names whose lower-cased form ends in ".html", each as often as
      listed, in listing order. */
  function HtmlBlobs(names: seq<string>): (r: seq<string>)
    ensures forall n :: n in r <==> n in names && IsHtmlName(n)
    ensures IsSubsequence(r, names)
    ensures forall n :: multiset(r)[n] == if IsHtmlName(n) then multiset(names)[n] else 0
  {
    FilterSpec(IsHtmlName, names);
    Filter(IsHtmlName, names)
  }

  /** `sort_by_timestamp(html_blobs)[-1]`, or `None` when the folder holds
      no page (the run then exits with status 1). */
  function LatestHtml(names: seq<string>): (r: Option<string>)
    ensures r.None? <==> forall n :: n in names ==> !IsHtmlName(n)
    ensures r.Some? ==> r.value in names && IsHtmlName(r.value)
    ensures r.Some? ==> forall n :: n in names && IsHtmlName(n) ==> LexLe(GetBasename(n), GetBasename(r.value))
    ensures r.Some? ==> LastWith(GetBasename, GetBasename(r.value), HtmlBlobs(names)) == Some(r.value)
  {
    var html := HtmlBlobs(names);
    if |html| == 0 then None
    else
      var s := SortByTimestamp(html);
      LastIsGreatest(html, s);
      Some(s[|s| - 1])
  }

  /** The last of the sorted pages has the greatest base name, and of the
      pages sharing that base name it is the one listed last. */
  lemma LastIsGreatest(html: seq<string>, s: seq<string>)
    requires |html| > 0 && s == SortByTimestamp(html)
    ensures |s| > 0 && s[|s| - 1] in html
    ensures forall n :: n in html ==> LexLe(GetBasename(n), GetBasename(s[|s| - 1]))
    ensures LastWith(GetBasename, GetBasename(s[|s| - 1]), html) == Some(s[|s| - 1])
  {
    assert html[0] in multiset(html);
    var x := s[|s| - 1];
    assert x in multiset(s);
    LastIsMax(html, s);
    var k := GetBasename(x);
    FilterLast(HasKey(GetBasename, k), s);
    assert KeyClass(GetBasename, k, s) == KeyClass(GetBasename, k, html);
    LastOfKeyClass(GetBasename, k, html);
  }

  /** No page has a greater base name than the last of the sorted ones. */
  lemma LastIsMax(html: seq<string>, s: seq<string>)
    requires |s| > 0 && multiset(s) == multiset(html) && SortedBy(GetBasename, s)
    ensures forall n :: n in html ==> LexLe(GetBasename(n), GetBasename(s[|s| - 1]))
  {
    var last := |s| - 1;
    var x := s[last];
    forall n | n in html ensures LexLe(GetBasename(n), GetBasename(x)) {
      assert n in multiset(s);
      var i :| 0 <= i < |s| && s[i] == n;
      if i == last {
        LexLeRefl(GetBasename(x));
      }
    }
  }

  /** `re.sub(r"<!DOCTYPE[^>]*>\s*", "", raw_html, flags=re.IGNORECASE)`. */
  function WithoutDoctype(raw: string): (r: string)
    ensures |r| <= |raw|
    ensures (forall j :: 0 <= j < |raw| ==> !StartsWithCI(raw[j..], "<!doctype")) ==> r == raw
  {
    NoDoctypeUnchanged(raw);
    Sub(Matcher(Doctype), raw)
  }

  /** Text with no "<!doctype" (in any case) holds no declaration. */
  lemma NoDoctypeUnchanged(raw: string)
    ensures (forall j :: 0 <= j < |raw| ==> !StartsWithCI(raw[j..], "<!doctype")) ==> Sub(Matcher(Doctype), raw) == raw
  {
    if forall j :: 0 <= j < |raw| ==> !StartsWithCI(raw[j..], "<!doctype") {
      forall j | 0 <= j < |raw| ensures Hit(Matcher(Doctype), raw[j..]).None? {
        NoDoctypeNoHit(raw[j..]);
      }
      SubUnmatched(Matcher(Doctype), raw);
    }
  }

  lemma NoDoctypeNoHit(t: string)
    requires !StartsWithCI(t, "<!doctype")
    ensures Hit(Matcher(Doctype), t).None?
  {
    MatcherHit(Doctype, t);
    assert DoctypeAt(t).None?;
  }

  /** A page opening with a declaration and whitespace loses both. */
  lemma LeadingDoctypeDropped(decl: string, ws: string, rest: string)
    requires |decl| >= 10 && StartsWithCI(decl, "<!doctype") && decl[|decl| - 1] == '>'
    requires forall i :: 9 <= i < |decl| - 1 ==> decl[i] != '>'
    requires AllSpace(ws) && (|rest| == 0 || !IsSpace(rest[0]))
    ensures WithoutDoctype(decl + ws + rest) == WithoutDoctype(rest)
  {
    var t := decl + ws + rest;
    var m := Matcher(Doctype);
    var n := |decl| + |ws|;
    DoctypeHit(decl, ws, rest);
    assert t[0..] == t;
    assert Search(m, t) == Some(0);
    SubLeftmost(m, t, 0, n);
    assert t[n..] == rest;
  }

  /** The declaration and the whitespace after it are one match. */
  lemma DoctypeHit(decl: string, ws: string, rest: string)
    requires |decl| >= 10 && StartsWithCI(decl, "<!doctype") && decl[|decl| - 1] == '>'
    requires forall i :: 9 <= i < |decl| - 1 ==> decl[i] != '>'
    requires AllSpace(ws) && (|rest| == 0 || !IsSpace(rest[0]))
    ensures Hit(Matcher(Doctype), decl + ws + rest) == Some(|decl| + |ws|)
  {
    var t := decl + ws + rest;
    assert StartsWithCI(t, "<!doctype") by {
      assert t[..9] == decl[..9];
    }
    assert forall i :: 0 <= i < |decl| ==> t[i] == decl[i];
    assert TagEnd(t, 9) == Some(|decl| - 1);
    assert t[|decl|..] == ws + rest;
    LeadingSpacesRun(ws, rest);
    MatcherHit(Doctype, t);
  }

  /** Where a case-insensitive "<title>" starts at `i`: the matcher finds
      an element there exactly when a "</title>" follows, and the element
      ends with the first one. */
  lemma TitleAt(s: string, i: nat)
    requires i <= |s|
    ensures Hit(Matcher(TitleElement), s[i..]).None? ==>
              !OccursAtCI(s, "<title>", i) || forall j: nat :: i + 7 <= j ==> !OccursAtCI(s, "</title>", j)
    ensures Hit(Matcher(TitleElement), s[i..]).Some? ==>
              var e := i + Hit(Matcher(TitleElement), s[i..]).value - 8;
              && OccursAtCI(s, "<title>", i) && i + 7 <= e && OccursAtCI(s, "</title>", e)
              && forall j: nat :: i + 7 <= j < e ==> !OccursAtCI(s, "</title>", j)
  {
    MatcherHit(TitleElement, s[i..]);
    if TitleElementAt(s[i..]).None? {
      TitleAbsentAt(s, i);
    } else {
      TitleEndsAt(s, i);
    }
  }

  lemma TitleAbsentAt(s: string, i: nat)
    requires i <= |s| && TitleElementAt(s[i..]).None?
    ensures !OccursAtCI(s, "<title>", i) || forall j: nat :: i + 7 <= j ==> !OccursAtCI(s, "</title>", j)
  {
    var u := s[i..];
    ShiftStart(s, "<title>", i);
    if OccursAtCI(s, "<title>", i) {
      forall j: nat | i + 7 <= j ensures !OccursAtCI(s, "</title>", j) {
        ShiftAt(s, "</title>", i, j - i);
        assert !OccursAtCI(u, "</title>", j - i);
      }
    }
  }

  lemma TitleEndsAt(s: string, i: nat)
    requires i <= |s| && TitleElementAt(s[i..]).Some?
    ensures var e := i + TitleElementAt(s[i..]).value - 8;
            && OccursAtCI(s, "<title>", i) && i + 7 <= e && OccursAtCI(s, "</title>", e)
            && forall j: nat :: i + 7 <= j < e ==> !OccursAtCI(s, "</title>", j)
  {
    var u := s[i..];
    var n := TitleElementAt(u).value;
    var e := i + n - 8;
    ShiftStart(s, "<title>", i);
    ShiftAt(s, "</title>", i, n - 8);
    NoCloseBefore(s, i, n - 8);
  }

  /** No "</title>" between the opening tag at `i` and index `i + k`,
      read in `s[i..]` or in `s`. */
  lemma NoCloseBefore(s: string, i: nat, k: nat)
    requires i <= |s| && forall j: nat :: 7 <= j < k ==> !OccursAtCI(s[i..], "</title>", j)
    ensures forall j: nat :: i + 7 <= j < i + k ==> !OccursAtCI(s, "</title>", j)
  {
    forall j: nat | i + 7 <= j < i + k ensures !OccursAtCI(s, "</title>", j) {
      ShiftAt(s, "</title>", i, j - i);
    }
  }

  /** `re.search(r"<title>(.*?)</title>", s, re.IGNORECASE | re.DOTALL)`:
      the bounds of group 1 of the leftmost match. */
  function TitleSpan(s: string): (r: Option<(nat, nat)>)
    ensures r.None? ==>
              forall i: nat, j: nat :: OccursAtCI(s, "<title>", i) && i + 7 <= j ==> !OccursAtCI(s, "</title>", j)
    ensures r.Some? ==>
              var (a, b) := r.value;
              && 7 <= a <= b <= |s| && OccursAtCI(s, "<title>", a - 7) && OccursAtCI(s, "</title>", b)
              && (forall j: nat :: a <= j < b ==> !OccursAtCI(s, "</title>", j))
              && (forall i: nat :: i < a - 7 && OccursAtCI(s, "<title>", i) ==>
                    forall j: nat :: i + 7 <= j ==> !OccursAtCI(s, "</title>", j))
  {
    var m := Matcher(TitleElement);
    match Search(m, s)
    case None =>
      forall i: nat | i <= |s| ensures !OccursAtCI(s, "<title>", i) || forall j: nat :: i + 7 <= j ==> !OccursAtCI(s, "</title>", j) {
        TitleAt(s, i);
      }
      None
    case Some(i) =>
      TitleAt(s, i);
      forall i': nat | i' < i ensures !OccursAtCI(s, "<title>", i') || forall j: nat :: i' + 7 <= j ==> !OccursAtCI(s, "</title>", j) {
        TitleAt(s, i');
      }
      Some((i + 7, i + Hit(m, s[i..]).value - 8))
  }

  /** `match.group(1).strip()`: the post title, `None` when the page has
      no title element. */
  function Title(s: string): (r: Option<string>)
    ensures r.None? <==> TitleSpan(s).None?
    ensures r.Some? ==> Trimmed(r.value) && r.value == Strip(s[TitleSpan(s).value.0..TitleSpan(s).value.1])
  {
    match TitleSpan(s)
    case None => None
    case Some((a, b)) => Some(Strip(s[a..b]))
  }

  /** The body cleaning of `main`: every title element, `<html...>` tag,
      `</html>` tag and `<h1>` holding just the title goes, then every copy
      of the title text, and the rest is stripped. */
  function Clean(s: string, title: string): (r: string)
    requires Trimmed(title)
    ensures Trimmed(r) && |r| <= |s|
  {
    var c1 := Sub(Matcher(TitleElement), s);
    var c2 := Sub(Matcher(HtmlOpen), c1);
    var c3 := Sub(Matcher(HtmlClose), c2);
    var c4 := Sub(Matcher(H1Titled(title)), c3);
    Strip(RemoveAll(c4, title))
  }

  /** Every pattern the page is cleaned with begins with '<'. */
  lemma NoTagNoMatch(p: Pattern, t: string)
    requires Valid(p) && '<' !in t
    ensures Hit(Matcher(p), t).None?
  {
    MatcherHit(p, t);
    match p
    case Doctype => NoLtNoPrefix(t, "<!doctype");
    case TitleElement => NoLtNoPrefix(t, "<title>");
    case HtmlOpen => NoLtNoPrefix(t, "<html");
    case HtmlClose => NoLtNoPrefix(t, "</html>");
    case H1Titled(_) => NoLtNoPrefix(t, "<h1");
  }

  /** Text without '<' does not start with anything that does. */
  lemma NoLtNoPrefix(t: string, q: string)
    requires '<' !in t && |q| > 0 && q[0] == '<'
    ensures !StartsWithCI(t, q)
  {
    if |q| <= |t| {
      assert t[..|q|][0] == t[0];
      assert Lower(t[0]) != '<';
    }
  }

  /** Cleaning text with no markup at all, and no copy of the title, only
      strips it. */
  lemma CleanPlainText(s: string, title: string)
    requires Trimmed(title) && '<' !in s
    requires title == "" || forall j: nat :: !OccursAt(s, title, j)
    ensures Clean(s, title) == Strip(s)
  {
    forall p: Pattern, j | Valid(p) && 0 <= j < |s| ensures Hit(Matcher(p), s[j..]).None? {
      NoTagNoMatch(p, s[j..]);
    }
    SubUnmatched(Matcher(TitleElement), s);
    SubUnmatched(Matcher(HtmlOpen), s);
    SubUnmatched(Matcher(HtmlClose), s);
    SubUnmatched(Matcher(H1Titled(title)), s);
  }

  /** The cover picture in front of the body, described with the title. */
  function CoverImage(url: string, title: string): (r: string)
    ensures |r| == |SrcOpen| + |url| + |AltOpen| + |title| + |StyleClose|
    ensures StartsWith(r, SrcOpen)
    ensures '"' !in url ==> FindFrom(r, "\"", |SrcOpen|) == Some(|SrcOpen| + |url|) && r[|SrcOpen|..|SrcOpen| + |url|] == url
    ensures EndsWith(r, AltOpen + title + StyleClose)
    ensures r[|r| - |StyleClose| - |title|..|r| - |StyleClose|] == title
  {
    var rest := AltOpen + title + StyleClose;
    var r := SrcOpen + url + rest;
    assert r[..|SrcOpen|] == SrcOpen;
    assert r[|SrcOpen|..|SrcOpen| + |url|] == url;
    assert r[|r| - |rest|..] == rest;
    assert r[|r| - |StyleClose| - |title|..|r| - |StyleClose|] == rest[|AltOpen|..|AltOpen| + |title|];
    if '"' !in url then
      SrcValue(r, url, |SrcOpen|);
      r
    else r
  }

  /** The tag text up to the image address. */
  const SrcOpen := "<p><img src=\""
  /** The alt text's opening, before the post title. */
  const AltOpen := "\" alt=\"Capa: "
  /** The rest of the image paragraph after the title. */
  const StyleClose := "\" style=\"max-width:100%;height:auto;\"></p>\n"

  /** A quote-free value followed by a quote is read back up to that
      quote. */
  lemma SrcValue(r: string, url: string, k: nat)
    requires '"' !in url && k + |url| < |r| && r[k..k + |url|] == url && r[k + |url|] == '"'
    ensures FindFrom(r, "\"", k) == Some(k + |url|)
  {
    var e := k + |url|;
    assert r[e..e + 1] == "\"";
    assert OccursAt(r, "\"", e);
    forall j: nat | k <= j < e ensures !OccursAt(r, "\"", j) {
      assert r[j] == r[k..e][j - k];
      assert r[j..j + 1] == [r[j]];
    }
    var f := FindFrom(r, "\"", k);
    assert f.Some?;
    assert f.value <= e;
  }

  /** `f"{html_folder}/{base_name}.jpg"`: the cover sits next to the page,
      named after the page without its extension. */
  function CoverPath(folder: string, page: string): (path: string)
    ensures StartsWith(path, folder + "/")
    ensures GetBasename(path) == SplitExtRoot(GetBasename(page)) + ".jpg"
  {
    var stem := SplitExtRoot(GetBasename(page));
    var file := stem + ".jpg";
    var path := folder + "/" + file;
    assert GetBasename(path) == file by {
      RootKeepsNoSlash(GetBasename(page));
      BasenameOfPath(folder, file);
    }
    assert StartsWith(path, folder + "/") by {
      assert path[..|folder| + 1] == folder + "/";
    }
    path
  }

  lemma RootKeepsNoSlash(b: string)
    requires '/' !in b
    ensures '/' !in SplitExtRoot(b)
  {
    var stem := SplitExtRoot(b);
    forall i | 0 <= i < |stem| ensures stem[i] != '/' {
      assert stem[i] == b[i];
    }
  }

  /** The cover of "<dir>/<stem>.html" is "<folder>/<stem>.jpg". */
  lemma CoverBesidePage(folder: string, dir: string, stem: string)
    requires '/' !in stem && !AllDots(stem)
    ensures CoverPath(folder, dir + "/" + stem + ".html") == folder + "/" + stem + ".jpg"
  {
    StemOfPage(dir, stem);
    CoverOfStem(folder, dir + "/" + stem + ".html", stem);
  }

  lemma StemOfPage(dir: string, stem: string)
    requires '/' !in stem && !AllDots(stem)
    ensures SplitExtRoot(GetBasename(dir + "/" + stem + ".html")) == stem
  {
    assert dir + "/" + stem + ".html" == dir + "/" + (stem + ".html");
    BasenameOfPath(dir, stem + ".html");
    RootOfHtmlName(stem);
  }

  lemma CoverOfStem(folder: string, page: string, stem: string)
    requires SplitExtRoot(GetBasename(page)) == stem
    ensures CoverPath(folder, page) == folder + "/" + stem + ".jpg"
  {
    assert folder + "/" + (stem + ".jpg") == folder + "/" + stem + ".jpg";
  }

  const PostKind := "blogger#post"

  /** The post body sent to the blog platform. */
  datatype Post = Post(kind: string, blogId: string, title: string, content: string)

  /** What a run of the stage ends in. Only `Published` has generated a
      cover image or sent anything. */
  datatype BlogOutcome =
    | ConfigError(error: EnvError)
    | NoHtml
    | NoTitle(page: string)
    | Published(page: string, cover: string, post: Post)

  /** A required variable read before any storage access is unset or empty. */
  predicate SetupFails(env: map<string, string>)
  {
    || GetEnv(env, "BUCKET_NAME", None, true).Failure?
    || GetEnv(env, "AUTH_JSON_PATH", None, true).Failure?
    || GetEnv(env, "BLOGGER_TOKEN_FILE", None, true).Failure?
    || GetEnv(env, "BLOG_ID", None, true).Failure?
  }

  /** `main`: `listing(folder)` is the storage listing under "folder/",
      `download(name)` a page's text and `publicUrl(path)` the public
      address of the cover uploaded at `path`. */
  function BlogRun(env: map<string, string>, listing: string -> seq<string>,
                   download: string -> string, publicUrl: string -> string): (out: BlogOutcome)
    ensures SetupFails(env) ==> out.ConfigError?
    ensures !SetupFails(env) ==>
              var folder := GetEnvOr(env, "HTML_FOLDER", "htmlblog");
              var latest := LatestHtml(listing(folder));
              && (out.NoHtml? <==> latest.None?)
              && (latest.Some? ==>
                    var source := WithoutDoctype(download(latest.value));
                    && (out.NoTitle? <==> Title(source).None?)
                    && (out.ConfigError? <==>
                          Title(source).Some? && GetEnv(env, "OPENAI_API_KEY", None, true).Failure?)
                    && (out.Published? ==>
                          var title := Title(source).value;
                          && out.page == latest.value
                          && out.cover == CoverPath(folder, latest.value)
                          && out.post.kind == PostKind && out.post.blogId == env["BLOG_ID"]
                          && out.post.title == title
                          && out.post.content == CoverImage(publicUrl(out.cover), title) + Clean(source, title)))
  {
    match GetEnv(env, "BUCKET_NAME", None, true)
    case Failure(e) => ConfigError(e)
    case Success(_) =>
      match GetEnv(env, "AUTH_JSON_PATH", None, true)
      case Failure(e) => ConfigError(e)
      case Success(_) =>
        var folder := GetEnvOr(env, "HTML_FOLDER", "htmlblog");
        match GetEnv(env, "BLOGGER_TOKEN_FILE", None, true)
        case Failure(e) => ConfigError(e)
        case Success(_) =>
          match GetEnv(env, "BLOG_ID", None, true)
          case Failure(e) => ConfigError(e)
          case Success(_) =>
            match LatestHtml(listing(folder))
            case None => NoHtml
            case Some(page) =>
              var source := WithoutDoctype(download(page));
              match Title(source)
              case None => NoTitle(page)
              case Some(title) =>
                var cleaned := Clean(source, title);
                match GetEnv(env, "OPENAI_API_KEY", None, true)
                case Failure(e) => ConfigError(e)
                case Success(_) =>
                  var cover := CoverPath(folder, page);
                  Published(page, cover, Post(PostKind, env["BLOG_ID"], title,
                                              CoverImage(publicUrl(cover), title) + cleaned))
  }
}
