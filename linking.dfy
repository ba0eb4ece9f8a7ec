/** The two publishing commands of `NotesPublisher`: `link_public_assets`, which links every
    whitelisted asset from the notes' `assets` directory into the site's asset directory, and
    `link_now_posts`, which links every now-post into the site's `now` directory under a
    date-prefixed name. A target directory is modelled by the links it holds: a map from the
    link's name inside the directory to what the link points to. */
module Linking {
  import opened Text
  import opened Frontmatter
  import opened Publisher

  // ---------------------------------------------------------------------------------------
  // Asset paths

  const ASSET_PREFIX := "assets/"

  /** `asset_path.replace("assets/", "")`: the path of an asset inside the notes' assets
      directory, and the name of its link inside the target directory. */
  function AssetRelPath(assetPath: string): string {
    ReplaceAll(assetPath, ASSET_PREFIX, "")
  }

  /** The relative path leaves an asset path unchanged exactly when `assets/` does not occur in
      it. */
  lemma AssetRelPathUnchangedIff(assetPath: string)
    ensures AssetRelPath(assetPath) == assetPath <==> !Contains(assetPath, ASSET_PREFIX)
  {
    DeleteAllUnchangedIff(assetPath, ASSET_PREFIX);
  }

  /** A leading `assets/` is removed, and the rest is treated the same way. */
  lemma AssetRelPathLeading(rest: string)
    ensures AssetRelPath(ASSET_PREFIX + rest) == AssetRelPath(rest)
  {
    var s := ASSET_PREFIX + rest;
    assert s[..|ASSET_PREFIX|] == ASSET_PREFIX;
    assert s[|ASSET_PREFIX|..] == rest;
  }

  /** A character other than `a` cannot start an occurrence, so it is kept. */
  lemma AssetRelPathKeepsChar(c: char, rest: string)
    requires c != 'a'
    ensures AssetRelPath([c] + rest) == [c] + AssetRelPath(rest)
  {
    var s := [c] + rest;
    assert s[1..] == rest;
    if |s| >= |ASSET_PREFIX| {
      assert s[..|ASSET_PREFIX|][0] == c;
    }
  }

  /** An occurrence of `assets/` further into the path is removed as well: the replacement is
      not anchored at the start. */
  lemma {:induction false} AssetRelPathInner(head: string, rest: string)
    requires forall i :: 0 <= i < |head| ==> head[i] != 'a'
    ensures AssetRelPath(head + ASSET_PREFIX + rest) == head + AssetRelPath(rest)
    decreases |head|
  {
    if head == [] {
      assert head + ASSET_PREFIX + rest == ASSET_PREFIX + rest;
      AssetRelPathLeading(rest);
    } else {
      AssetRelPathInner(head[1..], rest);
      assert head + ASSET_PREFIX + rest == [head[0]] + (head[1..] + ASSET_PREFIX + rest);
      AssetRelPathKeepsChar(head[0], head[1..] + ASSET_PREFIX + rest);
      assert head == [head[0]] + head[1..];
    }
  }

  /** For instance, `img/assets/x.png` becomes `img/x.png`. */
  lemma AssetRelPathInnerExample()
    ensures AssetRelPath("img/assets/x.png") == "img/x.png"
  {
    AssetRelPathInner("img/", "x.png");
    assert "img/" + ASSET_PREFIX + "x.png" == "img/assets/x.png";
  }

  /** The relative paths of a list of asset paths, in order. */
  function RelPaths(assets: seq<string>): (r: seq<string>)
    decreases |assets|
    ensures |r| == |assets|
    ensures forall i :: 0 <= i < |assets| ==> r[i] == AssetRelPath(assets[i])
  {
    if assets == [] then []
    else RelPaths(assets[..|assets| - 1]) + [AssetRelPath(assets[|assets| - 1])]
  }

  // ---------------------------------------------------------------------------------------
  // What `link_public_assets` does to the target directory

  /** The target directory after the linking loop has handled, in order, the assets whose
      relative paths are `rels`: for each, an existing link of that name is removed, and a new
      one to the source file is made when the source file exists. */
  function AssetLinkResult(links: map<string, string>, rels: seq<string>, sourceFiles: set<string>): map<string, string>
    decreases |rels|
  {
    if rels == [] then links
    else
      var before := AssetLinkResult(links, rels[..|rels| - 1], sourceFiles);
      var rel := rels[|rels| - 1];
      if rel in sourceFiles then before[rel := rel] else before - {rel}
  }

  /** The target directory after linking, described at once: every link named after one of
      the assets is replaced, by a link to the source file where that exists and by nothing
      where it does not; every other link is kept. */
  function LinkedAssets(links: map<string, string>, rels: seq<string>, sourceFiles: set<string>): map<string, string> {
    var named := ElementsOf(rels);
    (links - named) + map k | k in named * sourceFiles :: k
  }

  /** The loop's effect is the one described by `LinkedAssets`. */
  lemma {:induction false} AssetLinkResultIsLinkedAssets(links: map<string, string>, rels: seq<string>, sourceFiles: set<string>)
    ensures AssetLinkResult(links, rels, sourceFiles) == LinkedAssets(links, rels, sourceFiles)
    decreases |rels|
  {
    if rels != [] {
      var k := |rels| - 1;
      var init, rel := rels[..k], rels[k];
      AssetLinkResultIsLinkedAssets(links, init, sourceFiles);
      assert rels == init + [rel];
      var named := ElementsOf(rels);
      assert named == ElementsOf(init) + {rel};
      var r := AssetLinkResult(links, rels, sourceFiles);
      var l := LinkedAssets(links, rels, sourceFiles);
      var prev := LinkedAssets(links, init, sourceFiles);
      assert r == if rel in sourceFiles then prev[rel := rel] else prev - {rel};
      forall key
        ensures key in r <==> key in l
        ensures key in r ==> r[key] == l[key]
      {
        if key != rel {
          assert key in named <==> key in ElementsOf(init);
        }
      }
      assert r == l;
    }
  }

  /** `link_public_assets` is idempotent: linking the same assets a second time changes
      nothing. */
  lemma LinkAssetsIdempotent(links: map<string, string>, rels: seq<string>, sourceFiles: set<string>)
    ensures AssetLinkResult(AssetLinkResult(links, rels, sourceFiles), rels, sourceFiles)
         == AssetLinkResult(links, rels, sourceFiles)
  {
    var once := AssetLinkResult(links, rels, sourceFiles);
    AssetLinkResultIsLinkedAssets(links, rels, sourceFiles);
    AssetLinkResultIsLinkedAssets(once, rels, sourceFiles);
  }

  /** After linking, the link named after an asset exists exactly when its source file exists,
      and then points at that source file; every link not named after an asset is kept. */
  lemma LinkedAssetsPresent(links: map<string, string>, rels: seq<string>, sourceFiles: set<string>, key: string)
    ensures key in rels ==>
      (key in AssetLinkResult(links, rels, sourceFiles) <==> key in sourceFiles)
      && (key in sourceFiles ==> AssetLinkResult(links, rels, sourceFiles)[key] == key)
    ensures key !in rels ==>
      (key in AssetLinkResult(links, rels, sourceFiles) <==> key in links)
      && (key in links ==> AssetLinkResult(links, rels, sourceFiles)[key] == links[key])
  {
    AssetLinkResultIsLinkedAssets(links, rels, sourceFiles);
  }

  /** The number of assets whose source file exists: the count `link_public_assets` reports. */
  function ExistingCount(rels: seq<string>, sourceFiles: set<string>): (r: nat)
    decreases |rels|
    ensures r <= |rels|
  {
    if rels == [] then 0
    else
      var k := |rels| - 1;
      ExistingCount(rels[..k], sourceFiles) + (if rels[k] in sourceFiles then 1 else 0)
  }

  /** Every asset was linked exactly when each one's source file exists. */
  lemma {:induction false} ExistingCountAll(rels: seq<string>, sourceFiles: set<string>)
    ensures ExistingCount(rels, sourceFiles) == |rels|
        <==> forall i :: 0 <= i < |rels| ==> rels[i] in sourceFiles
    decreases |rels|
  {
    if rels != [] {
      var k := |rels| - 1;
      ExistingCountAll(rels[..k], sourceFiles);
      assert forall i :: 0 <= i < k ==> rels[..k][i] == rels[i];
    }
  }

  /** One more asset for the linking loop. */
  lemma AssetLoopStep(assets: seq<string>, i: nat, links: map<string, string>, sourceFiles: set<string>)
    requires i < |assets|
    ensures var rel := AssetRelPath(assets[i]);
      var before := AssetLinkResult(links, RelPaths(assets[..i]), sourceFiles);
      && AssetLinkResult(links, RelPaths(assets[..i + 1]), sourceFiles)
         == (if rel in sourceFiles then before[rel := rel] else before - {rel})
      && ExistingCount(RelPaths(assets[..i + 1]), sourceFiles)
         == ExistingCount(RelPaths(assets[..i]), sourceFiles) + (if rel in sourceFiles then 1 else 0)
  {
    assert assets[..i + 1][..i] == assets[..i];
    var rels := RelPaths(assets[..i + 1]);
    assert rels[..i] == RelPaths(assets[..i]);
  }

  // ---------------------------------------------------------------------------------------
  // Now-post names

  /** The name test of `link_now_posts`: a name starting with `20` or `19`, at least ten
      characters long, with `-` at positions 4 and 7 counts as already dated. The other
      characters are not looked at. */
  predicate HasDatePrefix(filename: string) {
    (StartsWith(filename, "20") || StartsWith(filename, "19"))
    && |filename| >= 10 && filename[4] == '-' && filename[7] == '-'
  }

  /** `post.name`: the part of the path after its last `/`. */
  function BaseName(path: string): (r: string)
    decreases |path|
    ensures |r| <= |path| && r == path[|path| - |r|..]
    ensures forall i :: 0 <= i < |r| ==> r[i] != '/'
    ensures |r| < |path| ==> path[|path| - |r| - 1] == '/'
  {
    if path == [] || path[|path| - 1] == '/' then []
    else BaseName(path[..|path| - 1]) + [path[|path| - 1]]
  }

  /** The name of a now-post's link: the file name as it is when it is already dated,
      otherwise the frontmatter's `date` and `_` in front of the file name when the note has a
      non-empty date, otherwise the file name as it is. A note that cannot be read keeps its
      file name. */
  function NowPostName(filename: string, content: Option<string>): (r: string)
    ensures |filename| <= |r| && r[|r| - |filename|..] == filename
  {
    if HasDatePrefix(filename) || content.None? then filename
    else DatedName(filename, FrontmatterOf(content.value))
  }

  /** The date-prefixed name, given the note's frontmatter. */
  function DatedName(filename: string, frontmatter: map<string, string>): (r: string)
    ensures |filename| <= |r| && r[|r| - |filename|..] == filename
  {
    var date := Get(frontmatter, "date");
    if date != "" then date + "_" + filename else filename
  }

  /** A name changes exactly when it is not already dated and the note has a non-empty date;
      it then becomes the date, `_` and the name. */
  lemma DatedNameCases(filename: string, frontmatter: map<string, string>)
    ensures DatedName(filename, frontmatter) != filename <==> "date" in frontmatter && frontmatter["date"] != ""
    ensures DatedName(filename, frontmatter) != filename ==>
      DatedName(filename, frontmatter) == frontmatter["date"] + "_" + filename
  {
    if "date" in frontmatter && frontmatter["date"] != "" {
      assert |DatedName(filename, frontmatter)| > |filename|;
    }
  }

  /** The link name of a now-post differs from its file name exactly when the name is not
      already dated, the note can be read and its frontmatter has a non-empty `date`; it is then
      that date, `_` and the file name. */
  lemma NowPostNameCases(filename: string, content: Option<string>)
    ensures NowPostName(filename, content) != filename <==>
      !HasDatePrefix(filename) && content.Some?
      && "date" in FrontmatterOf(content.value) && FrontmatterOf(content.value)["date"] != ""
    ensures NowPostName(filename, content) != filename ==>
      NowPostName(filename, content) == FrontmatterOf(content.value)["date"] + "_" + filename
  {
    if !HasDatePrefix(filename) && content.Some? {
      DatedNameCases(filename, FrontmatterOf(content.value));
    }
  }

  /** An undated note with a date in its frontmatter is linked under the dated name. */
  lemma DatedNameExample()
    ensures DatedName("reflections.md", map["date" := "2024-03-01", "tags" := "now"])
         == "2024-03-01_reflections.md"
  {
    var frontmatter := map["date" := "2024-03-01", "tags" := "now"];
    assert Get(frontmatter, "date") == "2024-03-01";
  }

  /** A name that is already dated is kept whatever the note says; as only the two dashes and
      the leading century are looked at, that includes names such as `1984-on-ai.md`. */
  lemma DatedFileNamesKept(content: Option<string>)
    ensures NowPostName("2024-03-01-reflections.md", content) == "2024-03-01-reflections.md"
    ensures NowPostName("1984-on-ai.md", content) == "1984-on-ai.md"
  {
    assert HasDatePrefix("2024-03-01-reflections.md");
    assert HasDatePrefix("1984-on-ai.md");
  }

  /** A short name is never taken for a dated one. */
  lemma ShortNamesNotDated(filename: string)
    requires |filename| < 10
    ensures NowPostName(filename, None) == filename
    ensures !HasDatePrefix(filename)
  {
  }

  // ---------------------------------------------------------------------------------------
  // What `link_now_posts` does to the target directory

  /** The name of the link made for a now-post. */
  function NowTarget(post: Note): string {
    NowPostName(BaseName(post.path), post.content)
  }

  /** The links made for the posts, in order: each post's link name and the post it points to. */
  function NowLinks(posts: seq<Note>): (r: seq<(string, string)>)
    decreases |posts|
    ensures |r| == |posts|
  {
    if posts == [] then []
    else
      var last := posts[|posts| - 1];
      NowLinks(posts[..|posts| - 1]) + [(NowTarget(last), last.path)]
  }

  /** The target directory after making the given links in order, each replacing any link of
      its name. */
  function Overlay(links: map<string, string>, made: seq<(string, string)>): map<string, string>
    decreases |made|
  {
    if made == [] then links
    else
      var last := made[|made| - 1];
      Overlay(links, made[..|made| - 1])[last.0 := last.1]
  }

  /** One more post for the linking loop. */
  lemma NowLoopStep(posts: seq<Note>, i: nat, links: map<string, string>)
    requires i < |posts|
    ensures Overlay(links, NowLinks(posts[..i + 1]))
         == Overlay(links, NowLinks(posts[..i]))[NowTarget(posts[i]) := posts[i].path]
  {
    assert posts[..i + 1][..i] == posts[..i];
    var made := NowLinks(posts[..i + 1]);
    assert made[..i] == NowLinks(posts[..i]);
  }

  /** Making the links lays them over the directory's earlier links. */
  lemma {:induction false} OverlayIsUnion(links: map<string, string>, made: seq<(string, string)>)
    ensures Overlay(links, made) == links + Overlay(map[], made)
    decreases |made|
  {
    if made != [] {
      OverlayIsUnion(links, made[..|made| - 1]);
    }
  }

  /** `link_now_posts` is idempotent: making the same links a second time changes nothing. */
  lemma LinkNowPostsIdempotent(links: map<string, string>, made: seq<(string, string)>)
    ensures Overlay(Overlay(links, made), made) == Overlay(links, made)
  {
    OverlayIsUnion(links, made);
    OverlayIsUnion(Overlay(links, made), made);
  }

  /** After linking, every link made is present, pointing where the last link of that name
      points. */
  lemma {:induction false} OverlayLastWins(links: map<string, string>, made: seq<(string, string)>, i: nat)
    requires i < |made|
    ensures made[i].0 in Overlay(links, made)
    ensures exists j :: i <= j < |made| && made[j].0 == made[i].0 && Overlay(links, made)[made[i].0] == made[j].1
    decreases |made|
  {
    var k := |made| - 1;
    if i < k && made[k].0 != made[i].0 {
      OverlayLastWins(links, made[..k], i);
      var j :| i <= j < k && made[..k][j].0 == made[i].0 && Overlay(links, made[..k])[made[i].0] == made[..k][j].1;
      assert made[..k][j] == made[j];
    } else {
      assert made[k].0 == made[i].0;
    }
  }

  /** No link other than the ones made is created or removed. */
  lemma {:induction false} OverlayKeeps(links: map<string, string>, made: seq<(string, string)>, key: string)
    requires forall i :: 0 <= i < |made| ==> made[i].0 != key
    ensures key in Overlay(links, made) <==> key in links
    ensures key in links ==> Overlay(links, made)[key] == links[key]
    decreases |made|
  {
    if made != [] {
      var k := |made| - 1;
      assert forall i :: 0 <= i < k ==> made[..k][i] == made[i];
      OverlayKeeps(links, made[..k], key);
    }
  }

  /** Removing a link that is not there changes nothing. */
  lemma RemoveAbsent(links: map<string, string>, name: string)
    requires name !in links
    ensures links - {name} == links
  {
  }

  /** Removing a link and then making one of the same name is making it. */
  lemma RemoveThenLink(links: map<string, string>, name: string, target: string)
    ensures (links - {name})[name := target] == links[name := target]
  {
  }

  // ---------------------------------------------------------------------------------------
  // The commands

  /** A target directory: the links it holds, by name. */
  class TargetDir {
    var links: map<string, string>

    constructor(initial: map<string, string>)
      ensures links == initial
    {
      links := initial;
    }

    /** `link_public_assets`: nothing happens when the notes have no assets directory;
        otherwise every whitelisted asset's link is replaced by a link to its source file, or
        removed when that file does not exist, and the links made are counted. */
    method LinkPublicAssets(notes: seq<Note>, sourceDirExists: bool, sourceFiles: set<string>)
      returns (linkedCount: nat)
      modifies this
      ensures !sourceDirExists ==> links == old(links) && linkedCount == 0
      ensures sourceDirExists ==>
        links == AssetLinkResult(old(links), RelPaths(PublicAssets(notes)), sourceFiles)
        && linkedCount == ExistingCount(RelPaths(PublicAssets(notes)), sourceFiles)
    {
      if !sourceDirExists {
        return 0;
      }
      var publicAssets := CollectPublicAssets(notes);
      linkedCount := LinkAssets(publicAssets, sourceFiles);
    }

    /** The linking loop of `link_public_assets` over the whitelist. */
    method LinkAssets(publicAssets: seq<string>, sourceFiles: set<string>) returns (linkedCount: nat)
      modifies this
      ensures links == AssetLinkResult(old(links), RelPaths(publicAssets), sourceFiles)
      ensures linkedCount == ExistingCount(RelPaths(publicAssets), sourceFiles)
    {
      linkedCount := 0;
      var i := 0;
      while i < |publicAssets|
        invariant 0 <= i <= |publicAssets|
        invariant links == AssetLinkResult(old(links), RelPaths(publicAssets[..i]), sourceFiles)
        invariant linkedCount == ExistingCount(RelPaths(publicAssets[..i]), sourceFiles)
      {
        AssetLoopStep(publicAssets, i, old(links), sourceFiles);
        var rel := ReplaceAll(publicAssets[i], ASSET_PREFIX, "");
        ghost var before := links;
        if rel in links {
          links := links - {rel};
        } else {
          RemoveAbsent(links, rel);
        }
        if rel in sourceFiles {
          RemoveThenLink(before, rel, rel);
          links := links[rel := rel];
          linkedCount := linkedCount + 1;
        }
        i := i + 1;
      }
      assert publicAssets[..i] == publicAssets;
    }

    /** `link_now_posts`: every now-post is linked under its name, replacing any link of that
        name, and every post is counted. */
    method LinkNowPosts(notes: seq<Note>) returns (linkedCount: nat)
      modifies this
      ensures links == Overlay(old(links), NowLinks(NowNotes(notes)))
      ensures linkedCount == |NowNotes(notes)|
    {
      var nowPosts := FindNowNotes(notes);
      linkedCount := LinkPosts(nowPosts);
    }

    /** The linking loop of `link_now_posts` over the now-posts. */
    method LinkPosts(nowPosts: seq<Note>) returns (linkedCount: nat)
      modifies this
      ensures links == Overlay(old(links), NowLinks(nowPosts))
      ensures linkedCount == |nowPosts|
    {
      linkedCount := 0;
      var i := 0;
      while i < |nowPosts|
        invariant 0 <= i <= |nowPosts|
        invariant links == Overlay(old(links), NowLinks(nowPosts[..i]))
        invariant linkedCount == i
      {
        NowLoopStep(nowPosts, i, old(links));
        var post := nowPosts[i];
        var targetName := NowTarget(post);
        ghost var before := links;
        if targetName in links {
          links := links - {targetName};
        } else {
          RemoveAbsent(links, targetName);
        }
        RemoveThenLink(before, targetName, post.path);
        links := links[targetName := post.path];
        linkedCount := linkedCount + 1;
        i := i + 1;
      }
      assert nowPosts[..i] == nowPosts;
    }
  }
}
