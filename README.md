# bloggy: the notes publisher, modelled in Dafny

`bloggy.py` publishes part of a directory of markdown notes as a static site. A note is
*public* when its YAML-style frontmatter says `public: true`. It is a *now-post* when its
`tags` value mentions `now`. The publisher can:

- list the public notes;
- extract the asset links (`[text](target)` links whose target mentions `assets`) from a note;
- build the asset whitelist, which is the sorted, duplicate-free union of the asset links of all
  public notes;
- link every whitelisted asset from the notes' `assets` directory into the site;
- link every now-post into the site's `now` directory under a date-prefixed name.

This project models the core of the `NotesPublisher` class and proves what it does:

| file | module | models |
|---|---|---|
| `text.dfy` | `Text` | the Python string operations used: `strip`, `splitlines`, `lower`, `in`, `startswith`, `replace` |
| `string_order.dfy` | `StringOrder` | Python's `<` on `str`, and `sorted()` of a set of strings |
| `frontmatter.dfy` | `Frontmatter` | `parse_frontmatter` (a method with its two loops, plus the function it is proved against), and the `public` / `tags` tests |
| `links.dfy` | `Links` | `LINK_REGEX` as a scanner, and `extract_assets_from_file` (the separator-counting loop, the per-line `re.findall`, the `assets` filter) |
| `publisher.dfy` | `Publisher` | `is_public_note`, `has_now_tag`, `find_public_notes`, `find_now_notes`, `collect_public_assets` |
| `linking.dfy` | `Linking` | the `assets/` path rewrite and the asset-link loop of `link_public_assets`; `post.name` and the target-name rule of `link_now_posts` and its loop |

How the model represents the outside world:

- The directory walk (`rglob("*.md")`) becomes its result, a sequence of `Note(path, content)`.
  `content` is `None` when reading the file failed.
- A target directory is a `TargetDir` object whose `links` field maps a link's name to what it
  points at. Removing an existing entry and creating a symlink are updates of that map.
- Whether a source asset exists is a set of existing relative paths. Whether the notes'
  `assets` directory exists is a boolean.

Each loop of the source is a method with loop invariants. Each method is proved equal to a
function, and the properties the code promises are proved as lemmas about that function.

Behaviour of the code a reader might not expect:

- The frontmatter opener is any content that *starts with* `---`. The line does not have to
  be exactly `---`, so `----` or `---title` also opens a block.
- Extraction looks for the second line that strips to `---` anywhere in the file, whether or
  not the file starts with one. With fewer than two such lines the whole file is the body.
- The asset path rewrite removes *every* occurrence of `assets/`, not only a leading one.
  For example, `img/assets/x.png` becomes `img/x.png`.
- A now-post file name counts as already dated when:
  - it starts with `20` or `19`,
  - it has at least ten characters,
  - it has `-` at positions 4 and 7.

  The other characters are not required to be digits, so `1984-on-ai.md` is kept as is.

## Model

| member | source | states |
|---|---|---|
| Text.StripMeaning | bloggy.py:70 | `strip` returns a slice of the string, and everything cut from either end is whitespace. A non-empty result starts and ends with non-whitespace. |
| Text.ContainsIff | bloggy.py:105 | Python's `t in s` holds exactly when `t` occurs in `s` at some index |
| Text.Lower | bloggy.py:92 | `lower()` keeps the length and lower-cases character by character (ASCII letters) |
| Text.LowerEqualsIff | bloggy.py:92 | comparing `x.lower()` with an all-lower-case string is a case-insensitive comparison, in both directions |
| Text.LinesHaveNoBreaks | bloggy.py:67 | no line returned by `splitlines()` contains a line break: every terminator, including `\r\n` as one, is cut out |
| Text.LinesCrLfExample | bloggy.py:166 | `"a\r\nb".splitlines()` is `["a", "b"]` |
| Text.DeleteAllUnchangedIff | bloggy.py:269-270 | `s.replace(p, "")` returns `s` unchanged exactly when `p` does not occur in `s` |
| StringOrder.LessIrreflexive | bloggy.py:221 | no string sorts before itself |
| StringOrder.LessTransitive | bloggy.py:221 | the string order is transitive |
| StringOrder.LessTotal | bloggy.py:221 | any two different strings are ordered one way or the other |
| StringOrder.LessAsymmetric | bloggy.py:221 | two strings are never each below the other |
| StringOrder.Least | bloggy.py:221 | a non-empty set has an element below all its other elements |
| StringOrder.SortedElements | bloggy.py:221 | `sorted(list(s))` of a set is strictly ascending and holds exactly the set's elements |
| StringOrder.AscendingUnique | bloggy.py:221 | two strictly ascending sequences with the same elements are equal, so the sorted whitelist is unique |
| Frontmatter.FindSeparator | bloggy.py:68-72 | the closing line found is the first line from index 1 on that strips to `---`; `None` means no such line |
| Frontmatter.FindSeparatorAt | bloggy.py:69-72 | a separator line with no separator before it (from index 1) is the one found |
| Frontmatter.SplitEntryMeaning | bloggy.py:79-81 | a line gives no entry exactly when it has no colon. Otherwise the key and value are the stripped text before and after its first colon. |
| Frontmatter.LineEntriesAt | bloggy.py:78-81 | every line between the separators is split on its own |
| Frontmatter.EntryMapKeys | bloggy.py:78-81 | a key is in the map exactly when some entry has that key |
| Frontmatter.EntryMapLastWins | bloggy.py:81 | for a duplicate key, the last entry wins |
| Frontmatter.BlockKeys | bloggy.py:74-81 | a key is in the frontmatter exactly when some line strictly between line 0 and the closing separator has that key before its first colon |
| Frontmatter.BlockLastWins | bloggy.py:78-81 | the value of a key is the one on the last line between the separators that has the key |
| Frontmatter.FrontmatterIsBlock | bloggy.py:63-75 | the map is empty unless the content starts with `---`. A non-empty map also needs a closing separator line at index 1 or later. |
| Frontmatter.ParseFrontmatter | bloggy.py:59-83 | the two loops (find the closing separator with `break`, then fill the map) compute exactly the frontmatter function |
| Frontmatter.IsPublicIff | bloggy.py:92 | a note is public exactly when it has a `public` key whose value equals `true` ignoring case. A missing key gives false. |
| Frontmatter.HasNowTagIff | bloggy.py:105 | a note is a now-post exactly when it has a `tags` key whose lower-cased value contains `now` |
| Frontmatter.LowerUnchanged | bloggy.py:105 | lower-casing a string without capitals changes nothing |
| Frontmatter.UnknownIsNowPost | bloggy.py:105 | `tags: unknown` makes a now-post, because the test is substring containment |
| Frontmatter.LaterIsNotNowPost | bloggy.py:105 | `tags: later` does not make a now-post |
| Links.MatchAt | bloggy.py:46 | a match found at `p` ends after `p` and within the line |
| Links.MatchAtIff | bloggy.py:46 | the scanner reports `(end, target)` at `p` exactly when the link pattern matches there with that capture |
| Links.FindAllSound | bloggy.py:182 | every target `findall` reports is captured by a match of the pattern |
| Links.FindAllNone | bloggy.py:182 | with no match, `findall` reports nothing |
| Links.FindAllLeftmost | bloggy.py:182 | the leftmost match is reported first, and the search resumes at its end, so matches do not overlap |
| Links.DisplayMatches | bloggy.py:46 | any `[text](target)` with no `]` in the text and no `)` in the target is a match capturing the target |
| Links.TwoDisplaysTargets | bloggy.py:182 | two links separated by text without `[` give both targets, in order |
| Links.ExternalLinkIsNotAsset | bloggy.py:185 | `https://example.com` does not mention `assets` |
| Links.NoPairNoContains | bloggy.py:185 | a string in which the first two characters of `t` never appear side by side does not contain `t` |
| Links.AssetsOnlyPair | bloggy.py:183-187 | of two targets where only the first mentions `assets`, only the first is kept |
| Links.ExampleAssetsOnly | bloggy.py:183-187 | of `assets/a.png` and `https://example.com`, only the first is kept |
| Links.LineLinksExample | bloggy.py:180-187 | the line `[img](assets/a.png) and [site](https://example.com)` yields exactly `["assets/a.png"]` |
| Links.NextTrue | bloggy.py:171-176 | the next separator at or after a line is the first one there |
| Links.SecondTrue | bloggy.py:171-176 | the second separator found is a separator line |
| Links.CountStep | bloggy.py:172-173 | counting one more line adds one exactly when it is a separator |
| Links.CountFlat | bloggy.py:171-173 | lines that are not separators leave the count unchanged |
| Links.CountMonotone | bloggy.py:171-173 | the separator count never decreases along the file |
| Links.SeparatorsBeforeIsCount | bloggy.py:168-173 | the loop's counter is the number of separator lines before the current line |
| Links.SecondTrueByCount | bloggy.py:172-176 | line `e` is the second separator exactly when it is a separator with exactly one separator before it |
| Links.SecondTrueNoneByCount | bloggy.py:171-179 | there is no second separator exactly when the file has fewer than two separator lines |
| Links.AtMostOneWithoutSecond | bloggy.py:171-179 | without a second separator the file has at most one separator line |
| Links.BodyAfterSecondSeparator | bloggy.py:174-179 | when line `e` is the second separator, the body is the lines after `e` |
| Links.BodyWithoutSecondSeparator | bloggy.py:179 | with fewer than two separator lines, the body is the whole file |
| Links.AssetsOnlyStep | bloggy.py:183-187 | one more target is appended exactly when it mentions `assets` |
| Links.LinksOfLinesStep | bloggy.py:180-187 | one more line appends that line's asset links |
| Links.LinksOfLinesAppend | bloggy.py:180-187 | the links of two blocks of lines are the links of the first block followed by those of the second (document order) |
| Links.AssetsOnlyMembers | bloggy.py:183-187 | a target is kept exactly when it was found and mentions `assets` (case-sensitive) |
| Links.LinksOfLinesSound | bloggy.py:180-187 | every extracted link mentions `assets` and is captured by a match on one of the lines |
| Links.AssetLinksSound | bloggy.py:166-187 | every link extracted from a note mentions `assets` and is captured by a match on a body line |
| Links.FindBodyStart | bloggy.py:166-176 | the counting loop stops at the second separator line, or reports 0 when there is none |
| Links.LineAssetLinks | bloggy.py:182-187 | the per-line loop appends exactly the line's asset targets, in order |
| Links.ExtractAssetsFromFile | bloggy.py:158-195 | an unreadable note gives `[]`; otherwise the result is the asset links of the body, in document order, with duplicates kept |
| Publisher.PublicNotesMembers | bloggy.py:110-122 | a note is listed as public exactly when it was found and is public |
| Publisher.NowNotesMembers | bloggy.py:124-136 | a note is listed as a now-post exactly when it was found and its tags mention `now` |
| Publisher.LinkUnionMembers | bloggy.py:216-218 | a string is in the union exactly when some note links to it |
| Publisher.PublicAssetSetMembers | bloggy.py:209-218 | a string is whitelisted exactly when some public note links to it |
| Publisher.PublicAssetSetOrderIndependent | bloggy.py:209-221 | the whitelist does not depend on the order of the directory walk |
| Publisher.WhitelistExample | bloggy.py:210-221 | whenever the public notes link exactly `assets/a.png` and `assets/b.png`, however often and in whichever notes, the whitelist is `["assets/a.png", "assets/b.png"]` |
| Publisher.ExampleNoteFrontmatter | bloggy.py:59-83 | the text `---` / `public: TRUE` / `---` / `[x](assets/x.png)` has the frontmatter `{"public": "TRUE"}` |
| Publisher.ExampleNoteLinks | bloggy.py:158-191 | the same text's asset links are `["assets/x.png"]`: the frontmatter lines are skipped and the body line's one link is kept |
| Publisher.ExampleNote | bloggy.py:85-93 | from its text alone, that note is public, because the value `TRUE` is compared ignoring case; its links are `["assets/x.png"]` |
| Publisher.ExampleWhitelist | bloggy.py:210-221 | a walk that finds only that note gives the whitelist `["assets/x.png"]` |
| Publisher.FindPublicNotes | bloggy.py:110-122 | the scan keeps exactly the public notes, in walk order |
| Publisher.FindNowNotes | bloggy.py:124-136 | the scan keeps exactly the now-posts, in walk order |
| Publisher.CollectPublicAssets | bloggy.py:206-223 | the result is strictly ascending (sorted, no duplicates), and a string is in it exactly when some public note links to it |
| Linking.AssetRelPathUnchangedIff | bloggy.py:269-270 | the rewrite leaves a path unchanged exactly when `assets/` does not occur in it |
| Linking.AssetRelPathLeading | bloggy.py:269-270 | a leading `assets/` is removed and the rest is rewritten the same way |
| Linking.AssetRelPathKeepsChar | bloggy.py:269-270 | a character other than `a` is kept |
| Linking.AssetRelPathInner | bloggy.py:269-270 | an `assets/` after a prefix without `a` is removed too: the rewrite is not anchored at the start |
| Linking.AssetRelPathInnerExample | bloggy.py:269-270 | `img/assets/x.png` becomes `img/x.png` |
| Linking.RelPaths | bloggy.py:267-270 | one rewritten path per whitelisted asset, in order |
| Linking.AssetLinkResultIsLinkedAssets | bloggy.py:266-287 | after the loop, every link named after an asset points to its source where that exists and is gone where it does not. Every other link is kept. |
| Linking.LinkAssetsIdempotent | bloggy.py:237-292 | linking the assets a second time changes nothing |
| Linking.LinkedAssetsPresent | bloggy.py:279-285 | an asset's link exists afterwards exactly when its source exists, and then points at it. A link not named after an asset keeps its target. |
| Linking.ExistingCount | bloggy.py:283-285 | the reported count is at most the number of whitelisted assets |
| Linking.ExistingCountAll | bloggy.py:283-290 | the count equals the whitelist's length exactly when every asset's source exists |
| Linking.AssetLoopStep | bloggy.py:279-285 | one turn of the loop removes the asset's link, then re-creates it and counts it only when the source exists |
| Linking.BaseName | bloggy.py:312 | `post.name` is the longest suffix of the path without `/` |
| Linking.NowPostName | bloggy.py:315-338 | the file name is always the tail of the link's name |
| Linking.NowPostNameCases | bloggy.py:315-338 | the link name differs from the file name exactly when the name is not already dated, the note can be read and its `date` is non-empty. It is then `date + "_" + name`. |
| Linking.DatedName | bloggy.py:329-335 | the file name is always the tail of the dated name |
| Linking.DatedNameCases | bloggy.py:330-335 | the name changes exactly when the frontmatter has a non-empty `date`, and then becomes `date + "_" + name` |
| Linking.DatedNameExample | bloggy.py:330-333 | `reflections.md` dated `2024-03-01` is linked as `2024-03-01_reflections.md` |
| Linking.DatedFileNamesKept | bloggy.py:315-322 | `2024-03-01-reflections.md` and `1984-on-ai.md` keep their names whatever the note says |
| Linking.ShortNamesNotDated | bloggy.py:315-320 | a name shorter than ten characters never counts as dated |
| Linking.NowLinks | bloggy.py:311-349 | one link per now-post |
| Linking.NowLoopStep | bloggy.py:340-349 | one more post adds or replaces the link under its name |
| Linking.OverlayIsUnion | bloggy.py:344-349 | the links made are laid over the directory's earlier links |
| Linking.LinkNowPostsIdempotent | bloggy.py:294-356 | linking the now-posts a second time changes nothing |
| Linking.OverlayLastWins | bloggy.py:344-349 | every post has a link under its name, pointing to the last post of that name |
| Linking.OverlayKeeps | bloggy.py:344-349 | a link whose name no post uses is neither made nor removed |
| Linking.TargetDir.LinkPublicAssets | bloggy.py:237-292 | with no source directory nothing changes and nothing is counted; otherwise the links and the count are those of the whitelist loop |
| Linking.TargetDir.LinkAssets | bloggy.py:266-287 | the loop turns the directory into the asset-link result and counts the assets whose source exists |
| Linking.TargetDir.LinkNowPosts | bloggy.py:294-356 | the links become the overlay of the now-posts' links, and every now-post is counted |
| Linking.TargetDir.LinkPosts | bloggy.py:310-351 | the loop overlays one link per post and counts every post |

## Left out

- `main` and the argparse dispatch: command-line glue.
- `log`, `print`, `scan_notes`, `output_public_paths`, `output_public_assets` and
  `output_forward_links`: console output only. The `verbose` flag only affects logging.
- File reading and the `except Exception` fallbacks: a note's content is an input, and `None`
  stands for a failed read. The source reads some files twice:
  - `collect_public_assets` reads each public note once in `is_public_note` (bloggy.py:88) and
    again in `extract_assets_from_file` (bloggy.py:163);
  - `link_now_posts` reads each now-post once to test its tags and again to find its date.

  The model gives each note one `content` for all of these reads, so it assumes the file did
  not change in between.
- The directory walk (`rglob`), `notes_dir.exists()` and `Path.resolve()`: the walk is the
  input sequence, and a missing notes directory is an empty sequence.
- `mkdir`: creating the target directory and the parent directories of each link is not
  modelled.
- Path joining and normalisation: a link's name is the rewritten asset path, or the now-post
  name, taken as is, always inside the target directory. A symlink's target is the rewritten
  relative path under the notes' `assets` directory, or the note's path. This loses a case
  the source has. In `pathlib`, `target_dir / rel` with an absolute `rel` drops `target_dir`
  (bloggy.py:269-270). A `..` in `rel` leaves the target directory the same way. So a link
  such as `[x](/home/u/assets/a.png)` makes the loop unlink `/home/u/a.png` when that file
  exists (bloggy.py:279-280). The model cannot express a name outside the target directory.
- The failure cases of `unlink` and `symlink` are not modelled, for example a target name that
  is an existing directory, or the empty name that a whitelisted `assets/` would give.
- Linking.TargetDir.LinkNowPosts: it makes and counts a link for every now-post, even where
  the source would fail. The realistic case is a frontmatter `date` that contains `/`, such as
  `2024/03/01`. The name `f"{date_str}_{filename}"` (bloggy.py:333) then points into a
  subdirectory of `now` that does not exist, so `os.symlink` raises `FileNotFoundError`
  (bloggy.py:349). Nothing catches it, because the `try` covers only the read
  (bloggy.py:326-338). The command stops there, and the remaining now-posts are not linked.
  The model has no directories inside the target and no aborted runs.
- Text.Lower: only ASCII letters are lower-cased. Python's full Unicode case mapping is not
  modelled.
- Linking.NowLinks: its contract states only the length. The content of each pair is stated
  through `Linking.NowLoopStep`.
- Frontmatter.FrontmatterIsBlock: it follows directly from the definition. The content
  properties are in `Frontmatter.BlockKeys` and `Frontmatter.BlockLastWins`.
