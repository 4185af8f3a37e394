/**
 * The pure rules in gameServerModsInstaller.ts: reading a server's Modrinth project list
 * (`"slug:version,slug,..."`), reading a modpack reference (a modrinth.com URL, a
 * `slug:version` string or a bare slug), choosing a version from a project's version list,
 * and deriving the loader and game version from a game server record.
 *
 * The WHATWG URL parser behind `new URL(...)` is a parameter: it yields the hostname and
 * pathname of a string it accepts and `None` where the constructor throws.
 */
module ModsInstaller {
  import opened Wrappers
  import opened Text

  /** `{ slug, versionNumber }`, with `versionNumber` absent (`undefined`) or present. */
  datatype ProjectRef = ProjectRef(slug: string, versionNumber: Option<string>)

  /** `.filter(Boolean)` on strings: the empty string is falsy. */
  function DropEmpty(xs: seq<string>): (r: seq<string>)
    ensures |r| <= |xs|
  {
    if xs == [] then []
    else (if xs[0] == "" then [] else [xs[0]]) + DropEmpty(xs[1..])
  }

  /** The filter keeps exactly the non-empty strings. */
  lemma {:induction false} DropEmptyMembers(xs: seq<string>)
    ensures forall x :: x in DropEmpty(xs) <==> x in xs && x != ""
  {
    if xs != [] {
      DropEmptyMembers(xs[1..]);
      assert xs == [xs[0]] + xs[1..];
    }
  }

  lemma {:induction false} DropEmptyAppend(xs: seq<string>, ys: seq<string>)
    ensures DropEmpty(xs + ys) == DropEmpty(xs) + DropEmpty(ys)
  {
    if xs == [] {
      assert xs + ys == ys;
    } else {
      assert (xs + ys)[1..] == xs[1..] + ys;
      DropEmptyAppend(xs[1..], ys);
    }
  }

  /** `.map(p => p.trim())`. */
  function TrimAll(xs: seq<string>): (r: seq<string>)
    ensures |r| == |xs|
  {
    if xs == [] then [] else [Trim(xs[0])] + TrimAll(xs[1..])
  }

  lemma {:induction false} TrimAllAt(xs: seq<string>, i: nat)
    requires i < |xs|
    ensures TrimAll(xs)[i] == Trim(xs[i])
  {
    if i > 0 {
      TrimAllAt(xs[1..], i - 1);
    }
  }

  lemma TrimAllEach(xs: seq<string>)
    ensures forall i :: 0 <= i < |xs| ==> TrimAll(xs)[i] == Trim(xs[i])
  {
    forall i | 0 <= i < |xs| ensures TrimAll(xs)[i] == Trim(xs[i]) {
      TrimAllAt(xs, i);
    }
  }

  /** `const [slug, versionNumber] = p.split(':')`: the text before the first `:`, and the
      text between the first and the second `:` when there is a `:` at all. */
  function RefOf(piece: string): ProjectRef {
    var parts := Split(piece, ':');
    ProjectRef(parts[0], if |parts| > 1 then Some(parts[1]) else None)
  }

  /** The text up to the first `:`, or all of it: the first piece `split(':')` yields. */
  function FirstField(s: string): (r: string)
    ensures ':' !in r && |r| <= |s| && r == s[..|r|]
    ensures |r| == |s| || s[|r|] == ':'
  {
    match IndexOf(s, ':')
    case None => s
    case Some(c) => s[..c]
  }

  lemma SplitHead(s: string)
    ensures Split(s, ':')[0] == FirstField(s)
  {
  }

  /** A piece without `:` is all slug; otherwise the slug ends at the first `:` and the
      version runs from there to the next `:` or the end. */
  lemma RefOfSpec(a: string, b: string)
    requires ':' !in a
    ensures RefOf(a) == ProjectRef(a, None)
    ensures RefOf(a + ":" + b) == ProjectRef(a, Some(FirstField(b)))
  {
    SplitAppend(a, b, ':');
    SplitHead(b);
    assert Split(a, ':') == [a];
  }

  /** The trimmed, non-empty pieces between commas. */
  function Pieces(s: string): seq<string> {
    DropEmpty(TrimAll(Split(s, ',')))
  }

  function RefsOf(pieces: seq<string>): (r: seq<ProjectRef>)
    ensures |r| == |pieces|
  {
    if pieces == [] then [] else [RefOf(pieces[0])] + RefsOf(pieces[1..])
  }

  lemma {:induction false} RefsOfAt(pieces: seq<string>, i: nat)
    requires i < |pieces|
    ensures RefsOf(pieces)[i] == RefOf(pieces[i])
  {
    if i > 0 {
      RefsOfAt(pieces[1..], i - 1);
    }
  }

  lemma RefsOfEach(pieces: seq<string>)
    ensures forall i :: 0 <= i < |pieces| ==> RefsOf(pieces)[i] == RefOf(pieces[i])
  {
    forall i | 0 <= i < |pieces| ensures RefsOf(pieces)[i] == RefOf(pieces[i]) {
      RefsOfAt(pieces, i);
    }
  }

  /** `parseModrinthProjects`: `null` and `""` are falsy and give no projects. */
  function ParseProjects(input: Option<string>): seq<ProjectRef> {
    match input
    case None => []
    case Some(s) => if s == "" then [] else RefsOf(Pieces(s))
  }

  /** No projects exactly when the input is absent or every piece between commas is
      blank; `null` and `""` are the first two cases. */
  lemma ParseProjectsEmpty(input: Option<string>)
    ensures ParseProjects(input) == [] <==>
      input.None? || forall p :: p in Split(input.value, ',') ==> Trim(p) == ""
  {
    if input.Some? {
      var parts := Split(input.value, ',');
      ParseAllPieces(input.value);
      TrimAllEach(parts);
      DropEmptyMembers(TrimAll(parts));
      if Pieces(input.value) == [] {
        forall p | p in parts ensures Trim(p) == "" {
          var i :| 0 <= i < |parts| && parts[i] == p;
          assert TrimAll(parts)[i] in TrimAll(parts);
        }
      } else {
        var q := Pieces(input.value)[0];
        assert q in Pieces(input.value);
        var i :| 0 <= i < |parts| && TrimAll(parts)[i] == q;
        assert parts[i] in parts;
      }
    }
  }

  /** At most one project per comma-separated piece, and no slug or version holds a `,`
      or a `:`. */
  lemma ParseProjectsShape(s: string)
    ensures |ParseProjects(Some(s))| <= Count(s, ',') + 1
    ensures forall r :: r in ParseProjects(Some(s)) ==>
      && ',' !in r.slug && ':' !in r.slug
      && (r.versionNumber.Some? ==> ',' !in r.versionNumber.value && ':' !in r.versionNumber.value)
  {
    var pieces := Pieces(s);
    assert ParseProjects(Some(s)) == [] || ParseProjects(Some(s)) == RefsOf(pieces);
    assert |pieces| <= Count(s, ',') + 1 by {
      assert |Split(s, ',')| == Count(s, ',') + 1;
    }
    forall r | r in ParseProjects(Some(s))
      ensures ',' !in r.slug && ':' !in r.slug
      ensures r.versionNumber.Some? ==> ',' !in r.versionNumber.value && ':' !in r.versionNumber.value
    {
      RefsOfEach(pieces);
      var i :| 0 <= i < |pieces| && r == RefOf(pieces[i]);
      assert ',' !in pieces[i] by {
        PiecesHaveNoComma(s);
        assert pieces[i] in pieces;
      }
      RefOfPlain(pieces[i]);
    }
  }

  lemma PiecesHaveNoComma(s: string)
    ensures forall p :: p in Pieces(s) ==> ',' !in p
  {
    var parts := Split(s, ',');
    var trimmed := TrimAll(parts);
    DropEmptyMembers(trimmed);
    TrimAllEach(parts);
    forall p | p in Pieces(s) ensures ',' !in p {
      var j :| 0 <= j < |trimmed| && trimmed[j] == p;
      TrimKeeps(parts[j], ',');
    }
  }

  lemma RefOfPlain(p: string)
    requires ',' !in p
    ensures var r := RefOf(p);
      && ',' !in r.slug && ':' !in r.slug
      && (r.versionNumber.Some? ==> ',' !in r.versionNumber.value && ':' !in r.versionNumber.value)
  {
    SplitKeeps(p, ':', ',');
  }

  /** Trimming only removes characters. */
  lemma TrimKeeps(s: string, c: char)
    requires c !in s
    ensures c !in Trim(s)
  {
    var t := TrimStart(s);
    assert forall x :: x in t ==> x in s;
    assert forall x :: x in TrimEnd(t) ==> x in t;
  }

  /** Splitting only cuts the string; it adds no characters. */
  lemma {:induction false} SplitKeeps(s: string, sep: char, c: char)
    requires c !in s
    ensures forall i :: 0 <= i < |Split(s, sep)| ==> c !in Split(s, sep)[i]
    decreases |s|
  {
    match IndexOf(s, sep)
    case None =>
    case Some(k) =>
      SplitKeeps(s[k + 1..], sep, c);
      assert forall x :: x in s[..k] ==> x in s;
      assert forall x :: x in s[k + 1..] ==> x in s;
  }

  /** Comma-separated input is read piece by piece, in order: the projects of `a,b` are
      the projects of `a` followed by those of `b`. */
  lemma ParseProjectsAppend(a: string, b: string)
    ensures ParseProjects(Some(a + "," + b)) == ParseProjects(Some(a)) + ParseProjects(Some(b))
  {
    var xs, ys := Split(a, ','), Split(b, ',');
    SplitAppend(a, b, ',');
    assert Split(a + "," + b, ',') == xs + ys;
    TrimAllAppend(xs, ys);
    DropEmptyAppend(TrimAll(xs), TrimAll(ys));
    assert Pieces(a + "," + b) == Pieces(a) + Pieces(b);
    RefsOfAppend(Pieces(a), Pieces(b));
    ParseAllPieces(a);
    ParseAllPieces(b);
    ParseAllPieces(a + "," + b);
  }

  /** The falsy `""` needs no special case: it has no pieces anyway. */
  lemma ParseAllPieces(s: string)
    ensures ParseProjects(Some(s)) == RefsOf(Pieces(s))
  {
    if s == "" {
      assert Split(s, ',') == [""];
      assert Trim("") == "";
      assert TrimAll([""]) == [""];
    }
  }

  lemma {:induction false} TrimAllAppend(xs: seq<string>, ys: seq<string>)
    ensures TrimAll(xs + ys) == TrimAll(xs) + TrimAll(ys)
  {
    if xs == [] {
      assert xs + ys == ys;
    } else {
      assert (xs + ys)[1..] == xs[1..] + ys;
      TrimAllAppend(xs[1..], ys);
    }
  }

  lemma {:induction false} RefsOfAppend(xs: seq<string>, ys: seq<string>)
    ensures RefsOf(xs + ys) == RefsOf(xs) + RefsOf(ys)
  {
    if xs == [] {
      assert xs + ys == ys;
    } else {
      assert (xs + ys)[1..] == xs[1..] + ys;
      RefsOfAppend(xs[1..], ys);
    }
  }

  // ---------------------------------------------------------------------------
  // Writing a project list back

  /** `slug` or `slug:version`. */
  function Format(r: ProjectRef): string {
    match r.versionNumber
    case None => r.slug
    case Some(v) => r.slug + ":" + v
  }

  /** Each reference written out, in order. */
  function FormatAll(refs: seq<ProjectRef>): (r: seq<string>)
    ensures |r| == |refs|
  {
    if refs == [] then [] else [Format(refs[0])] + FormatAll(refs[1..])
  }

  lemma {:induction false} FormatAllAt(refs: seq<ProjectRef>, i: nat)
    requires i < |refs|
    ensures FormatAll(refs)[i] == Format(refs[i])
  {
    if i > 0 {
      FormatAllAt(refs[1..], i - 1);
    }
  }

  lemma FormatAllEach(refs: seq<ProjectRef>)
    ensures forall i :: 0 <= i < |refs| ==> FormatAll(refs)[i] == Format(refs[i])
  {
    forall i | 0 <= i < |refs| ensures FormatAll(refs)[i] == Format(refs[i]) {
      FormatAllAt(refs, i);
    }
  }

  function FormatProjects(refs: seq<ProjectRef>): string {
    Join(FormatAll(refs), ",")
  }

  /** No separator and no white space. */
  predicate Plain(s: string) {
    forall i :: 0 <= i < |s| ==> s[i] != ',' && s[i] != ':' && !IsSpace(s[i])
  }

  /** The characters Modrinth slugs and version numbers are made of in practice. */
  predicate SlugChar(c: char) {
    ('a' <= c <= 'z') || ('A' <= c <= 'Z') || ('0' <= c <= '9') || c == '-' || c == '.' || c == '_' || c == '+'
  }

  lemma SlugCharsArePlain(s: string)
    requires forall i :: 0 <= i < |s| ==> SlugChar(s[i])
    ensures Plain(s)
  {
  }

  /** A reference the list format can carry: a non-empty plain slug and a plain version. */
  predicate Writable(r: ProjectRef) {
    r.slug != "" && Plain(r.slug) && (r.versionNumber.Some? ==> Plain(r.versionNumber.value))
  }

  /** Reading back a written list gives the references that were written. */
  lemma ParseFormatProjects(refs: seq<ProjectRef>)
    requires forall i :: 0 <= i < |refs| ==> Writable(refs[i])
    ensures ParseProjects(Some(FormatProjects(refs))) == refs
  {
    var pieces := FormatAll(refs);
    if refs != [] {
      FormatAllEach(refs);
      forall i | 0 <= i < |pieces| ensures ',' !in pieces[i] {
        FormatReads(refs[i]);
      }
      SplitJoin(pieces, ',');
      FormattedTrimmed(refs);
      FormattedKept(refs);
      FormattedRead(refs);
      ParseAllPieces(FormatProjects(refs));
    }
  }

  /** Trimming leaves written references alone. */
  lemma {:induction false} FormattedTrimmed(refs: seq<ProjectRef>)
    requires forall i :: 0 <= i < |refs| ==> Writable(refs[i])
    ensures TrimAll(FormatAll(refs)) == FormatAll(refs)
  {
    if refs != [] {
      FormatReads(refs[0]);
      FormattedTrimmed(refs[1..]);
    }
  }

  /** No written reference is empty. */
  lemma {:induction false} FormattedKept(refs: seq<ProjectRef>)
    requires forall i :: 0 <= i < |refs| ==> Writable(refs[i])
    ensures DropEmpty(FormatAll(refs)) == FormatAll(refs)
  {
    if refs != [] {
      FormatReads(refs[0]);
      FormattedKept(refs[1..]);
      assert FormatAll(refs)[1..] == FormatAll(refs[1..]);
    }
  }

  /** Written references read back as themselves. */
  lemma {:induction false} FormattedRead(refs: seq<ProjectRef>)
    requires forall i :: 0 <= i < |refs| ==> Writable(refs[i])
    ensures RefsOf(FormatAll(refs)) == refs
  {
    if refs != [] {
      var ps := FormatAll(refs);
      FormatReads(refs[0]);
      FormattedRead(refs[1..]);
      assert ps[0] == Format(refs[0]) && ps[1..] == FormatAll(refs[1..]);
      assert RefsOf(ps) == [RefOf(ps[0])] + RefsOf(ps[1..]);
    }
  }

  lemma {:induction false} DropEmptyNone(xs: seq<string>)
    requires forall i :: 0 <= i < |xs| ==> xs[i] != ""
    ensures DropEmpty(xs) == xs
  {
    if xs != [] {
      DropEmptyNone(xs[1..]);
    }
  }

  /** One written reference is a non-empty piece, free of commas, unchanged by trimming,
      that reads back as itself. */
  lemma FormatReads(r: ProjectRef)
    requires Writable(r)
    ensures var p := Format(r); ',' !in p && p != "" && Trim(p) == p && RefOf(p) == r
  {
    var p := Format(r);
    match r.versionNumber
    case None =>
      assert ':' !in p && ',' !in p by {
        forall i | 0 <= i < |p| ensures p[i] != ':' && p[i] != ',' {}
      }
      TrimFixed(p);
    case Some(v) =>
      VersionedReads(r.slug, v);
  }

  /** `slug:version` with both parts plain reads back as that slug and version. */
  lemma VersionedReads(slug: string, v: string)
    requires slug != "" && Plain(slug) && Plain(v)
    ensures var p := slug + ":" + v;
      ',' !in p && Trim(p) == p && RefOf(p) == ProjectRef(slug, Some(v))
  {
    var p := slug + ":" + v;
    assert RefOf(p) == ProjectRef(slug, Some(v)) by {
      assert ':' !in slug && ':' !in v by {
        forall i | 0 <= i < |slug| ensures slug[i] != ':' {}
        forall i | 0 <= i < |v| ensures v[i] != ':' {}
      }
      assert p == Join([slug, v], ":");
      SplitJoin([slug, v], ':');
    }
    assert ',' !in p by {
      forall i | 0 <= i < |p| ensures p[i] != ',' {
        if i < |slug| {
          assert p[i] == slug[i];
        } else if i > |slug| {
          assert p[i] == v[i - |slug| - 1];
        }
      }
    }
    assert Trim(p) == p by {
      assert !IsSpace(p[|p| - 1]) by {
        if v != [] {
          assert p[|p| - 1] == v[|v| - 1];
        }
      }
      TrimFixed(p);
    }
  }

  lemma OneRef(s: string, r: ProjectRef)
    requires Writable(r) && s == Format(r)
    ensures ParseProjects(Some(s)) == [r]
  {
    ParseFormatProjects([r]);
    assert FormatProjects([r]) == Format(r);
  }

  // ---------------------------------------------------------------------------
  // `parseModrinthModpackUrl`

  /** What `new URL(...)` exposes that the function reads. */
  datatype Url = Url(hostname: string, pathname: string)

  /** `pathname.split('/').filter(Boolean)`. */
  function Segments(pathname: string): seq<string> {
    DropEmpty(Split(pathname, '/'))
  }

  /** The reference a modrinth.com modpack page names, if the path is one. */
  function ModrinthPage(u: Url): Option<ProjectRef> {
    var parts := Segments(u.pathname);
    if u.hostname == "modrinth.com" && |parts| >= 2 && parts[0] == "modpack" && parts[1] != "" then
      Some(ProjectRef(parts[1], if |parts| >= 4 && parts[2] == "version" then Some(parts[3]) else None))
    else None
  }

  /** `parseModrinthModpackUrl(url)`, with the URL parser passed in. */
  function ParseModpackUrl(url: Option<string>, parseUrl: string -> Option<Url>): Option<ProjectRef> {
    match url
    case None => None
    case Some(u) =>
      if u == "" then None
      else
        var page := if parseUrl(u).Some? then ModrinthPage(parseUrl(u).value) else None;
        if page.Some? then page
        else if ':' in u then Some(RefOf(u))
        else Some(ProjectRef(u, None))
  }

  /** Only a missing or empty argument gives `null`. */
  lemma ModpackNull(url: Option<string>, parseUrl: string -> Option<Url>)
    ensures ParseModpackUrl(url, parseUrl).None? <==> url.None? || url == Some("")
  {
  }

  /** A modrinth.com modpack page names its slug, and its version when the path goes on
      with `version/<number>`. */
  lemma ModpackPage(u: string, parseUrl: string -> Option<Url>, slug: string, rest: seq<string>)
    requires u != "" && parseUrl(u).Some? && parseUrl(u).value.hostname == "modrinth.com"
    requires Segments(parseUrl(u).value.pathname) == ["modpack", slug] + rest && slug != ""
    ensures ParseModpackUrl(Some(u), parseUrl) ==
      Some(ProjectRef(slug, if |rest| >= 2 && rest[0] == "version" then Some(rest[1]) else None))
  {
    var parts := ["modpack", slug] + rest;
    assert parts[0] == "modpack" && parts[1] == slug;
    if |rest| >= 2 {
      assert parts[2] == rest[0] && parts[3] == rest[1];
    } else if |rest| == 1 {
      assert |parts| == 3;
    }
  }

  /** Any other input with a `:` is read as `slug:version`, cut at the first `:` and the
      next one. A URL that is not a modrinth.com modpack page therefore takes its scheme
      as the slug: `https://example.com/pack` gives slug `https`. */
  lemma ModpackColon(a: string, b: string, parseUrl: string -> Option<Url>)
    requires ':' !in a
    requires var u := a + ":" + b; parseUrl(u).None? || ModrinthPage(parseUrl(u).value).None?
    ensures ParseModpackUrl(Some(a + ":" + b), parseUrl) == Some(ProjectRef(a, Some(FirstField(b))))
  {
    RefOfSpec(a, b);
    assert (a + ":" + b)[|a|] == ':';
  }

  /** Input without a `:` that is not a modrinth.com modpack page is taken as a bare slug. */
  lemma ModpackBareSlug(u: string, parseUrl: string -> Option<Url>)
    requires u != "" && ':' !in u
    requires parseUrl(u).None? || ModrinthPage(parseUrl(u).value).None?
    ensures ParseModpackUrl(Some(u), parseUrl) == Some(ProjectRef(u, None))
  {
  }

  // ---------------------------------------------------------------------------
  // Choosing a version

  /** The fields of a Modrinth project version that the choice reads. */
  datatype Version = Version(id: string, versionNumber: string)

  /** `versions.find(v => v.version_number === wanted)`, as a position. */
  function FindVersion(versions: seq<Version>, wanted: string): (r: Option<nat>)
    ensures r.None? <==> forall i :: 0 <= i < |versions| ==> versions[i].versionNumber != wanted
    ensures r.Some? ==> r.value < |versions| && versions[r.value].versionNumber == wanted
    ensures r.Some? ==> forall i :: 0 <= i < r.value ==> versions[i].versionNumber != wanted
  {
    if versions == [] then None
    else if versions[0].versionNumber == wanted then Some(0)
    else match FindVersion(versions[1..], wanted)
      case None => None
      case Some(i) => Some(i + 1)
  }

  /** The version `resolveModrinthVersion` and `installServerModpack` settle on: none for
      an empty list; the first one with the requested number when a non-empty number is
      requested and present; the first (latest) one otherwise. */
  function ChooseVersion(versions: seq<Version>, wanted: Option<string>): (r: Option<Version>)
    ensures r.None? <==> versions == []
    ensures r.Some? ==> r.value in versions
    ensures r.Some? && wanted.Some? && wanted.value != "" && FindVersion(versions, wanted.value).Some? ==>
      r.value.versionNumber == wanted.value
      && forall i :: 0 <= i < |versions| && versions[i].versionNumber == wanted.value ==> versions[i] == r.value || exists j :: 0 <= j < i && versions[j] == r.value
    ensures r.Some? && (wanted.None? || wanted.value == "" || FindVersion(versions, wanted.value).None?) ==>
      r.value == versions[0]
  {
    if versions == [] then None
    else if wanted.Some? && wanted.value != "" && FindVersion(versions, wanted.value).Some? then
      Some(versions[FindVersion(versions, wanted.value).value])
    else Some(versions[0])
  }

  /** `resolveModrinthVersion` after the version list arrives: the chosen version's id. */
  function ResolveVersionId(versions: seq<Version>, wanted: Option<string>): (r: Option<string>)
    ensures r.None? <==> versions == []
    ensures r.Some? ==> exists i :: 0 <= i < |versions| && versions[i].id == r.value
    ensures versions != [] && wanted.Some? && wanted.value != "" && FindVersion(versions, wanted.value).Some? ==>
      r == Some(versions[FindVersion(versions, wanted.value).value].id)
    ensures versions != [] && (wanted.None? || wanted.value == "" || FindVersion(versions, wanted.value).None?) ==>
      r == Some(versions[0].id)
  {
    match ChooseVersion(versions, wanted)
    case None => None
    case Some(v) => Some(v.id)
  }

  /** A requested number that is listed is honoured whatever else is listed after it. */
  lemma RequestedVersionWins(before: seq<Version>, v: Version, after: seq<Version>)
    requires v.versionNumber != "" && forall i :: 0 <= i < |before| ==> before[i].versionNumber != v.versionNumber
    ensures ChooseVersion(before + [v] + after, Some(v.versionNumber)) == Some(v)
  {
    var vs := before + [v] + after;
    assert vs[|before|] == v;
  }

  /** `getProjectVersions`' filter: a lower-cased loader and the game version, each only
      when non-empty (`''` is falsy). */
  datatype VersionQuery = VersionQuery(loaders: Option<seq<string>>, gameVersions: Option<seq<string>>)

  function QueryFor(gameVersion: string, loader: string): (q: VersionQuery)
    ensures q.loaders.None? <==> loader == ""
    ensures q.loaders.Some? ==> q.loaders.value == [Lower(loader)]
    ensures q.gameVersions.None? <==> gameVersion == ""
    ensures q.gameVersions.Some? ==> q.gameVersions.value == [gameVersion]
  {
    VersionQuery(if loader != "" then Some([Lower(loader)]) else None,
                 if gameVersion != "" then Some([gameVersion]) else None)
  }

  // ---------------------------------------------------------------------------
  // A game server record

  /** The fields of `GameServer` the installer reads. `serverType` is declared a string
      but read with `?.`, so it may be absent. */
  datatype GameServer = GameServer(serverType: Option<string>, version: string, modrinthProjects: Option<string>)

  /** `server.serverType?.toLowerCase() || 'fabric'`. */
  function ServerLoader(server: GameServer): (r: string)
    ensures r != "" && Lower(r) == r
    ensures server.serverType.Some? && server.serverType.value != "" ==> r == Lower(server.serverType.value)
    ensures server.serverType.None? || server.serverType.value == "" ==> r == "fabric"
  {
    match server.serverType
    case None => "fabric"
    case Some(t) =>
      LowerIdempotent(t);
      if Lower(t) != "" then Lower(t) else "fabric"
  }

  /** `server.version === 'latest' ? gameVersion : server.version`. */
  function ServerGameVersion(server: GameServer, gameVersion: string): (r: string)
    ensures server.version == "latest" ==> r == gameVersion
    ensures server.version != "latest" ==> r == server.version
  {
    if server.version == "latest" then gameVersion else server.version
  }

  /** `installServerMods`: what is handed to `installModrinthMods`. */
  datatype ModsRequest = ModsRequest(projects: seq<ProjectRef>, gameVersion: string, loader: string)

  function ServerModsRequest(server: GameServer, gameVersion: string): ModsRequest {
    ModsRequest(ParseProjects(server.modrinthProjects), ServerGameVersion(server, gameVersion), ServerLoader(server))
  }

  /** The version query made for each of a server's mods, in terms of the server record:
      the loader filter is always the server's loader; the game-version filter is the
      supplied game version for `latest`, the server's own version otherwise, and absent
      when that version is empty. */
  lemma ServerQuery(server: GameServer, gameVersion: string)
    ensures var q := QueryFor(ServerModsRequest(server, gameVersion).gameVersion, ServerModsRequest(server, gameVersion).loader);
      && q.loaders == Some([ServerLoader(server)])
      && (server.version == "latest" && gameVersion != "" ==> q.gameVersions == Some([gameVersion]))
      && (server.version != "latest" && server.version != "" ==> q.gameVersions == Some([server.version]))
      && (q.gameVersions.None? <==> (server.version == "latest" && gameVersion == "") || server.version == "")
  {
  }
}
