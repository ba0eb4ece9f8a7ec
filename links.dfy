/** Forward-link extraction (`NotesPublisher.extract_assets_from_file`): the body of a note,
    the inline links `[label](target)` on each of its lines, and the asset filter. */
module Links {
  import opened Text
  import opened Frontmatter

  /** The literal that an extracted target must contain. */
  const ASSETS := "assets"

  // ---------------------------------------------------------------------------------------
  // The link pattern `\[[^\]]*\]\(([^)]*)\)`

  /** A match of the link pattern occupies `line[p..e]` and captures `target`: an opening
      bracket, a label without `]`, the closing bracket, then `(`, a target without `)`
      and the closing parenthesis. */
  predicate IsLinkAt(line: string, p: nat, e: nat, target: string) {
    var c := e - |target| - 3;
    && p < c && e <= |line|
    && line[p] == '['
    && (forall t :: p < t < c ==> line[t] != ']')
    && line[c] == ']' && line[c + 1] == '('
    && line[c + 2..e - 1] == target && ')' !in target
    && line[e - 1] == ')'
  }

  /** The pattern tried at position `p`: the end of the match and its captured target.
      The label runs to the first `]`, which must be followed by `(`; the target runs to the
      first `)` after that. */
  function MatchAt(line: string, p: nat): (r: Option<(nat, string)>)
    ensures r.Some? ==> p < r.value.0 <= |line|
  {
    if p < |line| && line[p] == '[' then
      match IndexOf(line, ']', p + 1)
      case None => None
      case Some(c) =>
        if c + 1 < |line| && line[c + 1] == '(' then
          match IndexOf(line, ')', c + 2)
          case None => None
          case Some(d) => Some((d + 1, line[c + 2..d]))
        else None
    else None
  }

  /** The scanner agrees with the pattern: it reports exactly the matches that start at `p`. */
  lemma MatchAtIff(line: string, p: nat, e: nat, target: string)
    ensures MatchAt(line, p) == Some((e, target)) <==> IsLinkAt(line, p, e, target)
  {
    if MatchAt(line, p) == Some((e, target)) {
      var c := IndexOf(line, ']', p + 1).value;
      var d := IndexOf(line, ')', c + 2).value;
      assert e - |target| - 3 == c;
      assert forall t :: 0 <= t < |target| ==> target[t] == line[c + 2 + t];
    }
    if IsLinkAt(line, p, e, target) {
      var c := e - |target| - 3;
      assert IndexOf(line, ']', p + 1) == Some(c);
      assert forall t :: c + 2 <= t < e - 1 ==> line[t] != ')' by {
        forall t | c + 2 <= t < e - 1
          ensures line[t] != ')'
        {
          assert line[t] == target[t - c - 2];
        }
      }
      assert IndexOf(line, ')', c + 2) == Some(e - 1);
    }
  }

  /** `re.findall` from position `q`: the captured targets of the non-overlapping matches,
      leftmost first, the search resuming where the previous match ended. */
  function FindAllFrom(line: string, q: nat): seq<string>
    requires q <= |line|
    decreases |line| - q
  {
    if q == |line| then []
    else
      match MatchAt(line, q)
      case Some(m) => [m.1] + FindAllFrom(line, m.0)
      case None => FindAllFrom(line, q + 1)
  }

  /** The captured targets of all matches on one line. */
  function LinkTargets(line: string): seq<string> {
    FindAllFrom(line, 0)
  }

  /** Every reported target is captured by a match that starts at or after `q`. */
  lemma {:induction false} FindAllSound(line: string, q: nat, target: string)
    requires q <= |line|
    requires target in FindAllFrom(line, q)
    ensures exists p: nat, e: nat :: q <= p && IsLinkAt(line, p, e, target)
    decreases |line| - q
  {
    match MatchAt(line, q)
    case Some(m) =>
      if target == m.1 {
        MatchAtIff(line, q, m.0, m.1);
      } else {
        FindAllSound(line, m.0, target);
      }
    case None =>
      FindAllSound(line, q + 1, target);
  }

  /** No match starting at or after `q` means nothing is reported. */
  lemma {:induction false} FindAllNone(line: string, q: nat)
    requires q <= |line|
    requires forall p: nat, e: nat, t :: q <= p ==> !IsLinkAt(line, p, e, t)
    ensures FindAllFrom(line, q) == []
    decreases |line| - q
  {
    if q < |line| {
      if MatchAt(line, q).Some? {
        var m := MatchAt(line, q).value;
        MatchAtIff(line, q, m.0, m.1);
      }
      FindAllNone(line, q + 1);
    }
  }

  /** The leftmost match at or after `q` is reported first, and the search goes on after its
      end, so matches never overlap. */
  lemma {:induction false} FindAllLeftmost(line: string, q: nat, p: nat, e: nat, target: string)
    requires q <= p && IsLinkAt(line, p, e, target)
    requires forall p': nat, e': nat, t :: q <= p' < p ==> !IsLinkAt(line, p', e', t)
    ensures e <= |line| && FindAllFrom(line, q) == [target] + FindAllFrom(line, e)
    decreases p - q
  {
    MatchAtIff(line, p, e, target);
    if q < p {
      if MatchAt(line, q).Some? {
        var m := MatchAt(line, q).value;
        MatchAtIff(line, q, m.0, m.1);
      }
      FindAllLeftmost(line, q + 1, p, e, target);
    }
  }

  // ---------------------------------------------------------------------------------------
  // The asset filter and the body

  /** The targets that contain `assets` (case-sensitive), in order, duplicates kept. */
  function AssetsOnly(targets: seq<string>): (r: seq<string>)
    decreases |targets|
  {
    if targets == [] then []
    else
      var last := targets[|targets| - 1];
      AssetsOnly(targets[..|targets| - 1]) + (if Contains(last, ASSETS) then [last] else [])
  }

  /** The asset links of one line, left to right. */
  function LineLinks(line: string): seq<string> {
    AssetsOnly(LinkTargets(line))
  }

  /** The asset links of the given lines, line after line. */
  function LinksOfLines(lines: seq<string>): seq<string>
    decreases |lines|
  {
    if lines == [] then []
    else LinksOfLines(lines[..|lines| - 1]) + LineLinks(lines[|lines| - 1])
  }

  /** For each line, whether it strips to `---`. */
  function SeparatorFlags(lines: seq<string>): seq<bool> {
    seq(|lines|, i requires 0 <= i < |lines| => IsSeparator(lines[i]))
  }

  /** The number of set flags. */
  function CountTrue(flags: seq<bool>): nat
    decreases |flags|
  {
    if flags == [] then 0
    else CountTrue(flags[..|flags| - 1]) + (if flags[|flags| - 1] then 1 else 0)
  }

  /** The number of separator lines among the first `k` lines. */
  function SeparatorsBefore(lines: seq<string>, k: nat): nat
    requires k <= |lines|
  {
    if k == 0 then 0
    else SeparatorsBefore(lines, k - 1) + (if IsSeparator(lines[k - 1]) then 1 else 0)
  }

  /** The first set flag at or after `from`. */
  function NextTrue(flags: seq<bool>, from: nat): (r: Option<nat>)
    decreases |flags| - from
    ensures r.Some? ==> from <= r.value < |flags| && flags[r.value]
    ensures r.Some? ==> forall j :: from <= j < r.value ==> !flags[j]
    ensures r.None? ==> forall j :: from <= j < |flags| ==> !flags[j]
  {
    if from >= |flags| then None
    else if flags[from] then Some(from)
    else NextTrue(flags, from + 1)
  }

  /** The position of the second set flag. */
  function SecondTrue(flags: seq<bool>): (r: Option<nat>)
    ensures r.Some? ==> r.value < |flags| && flags[r.value]
  {
    match NextTrue(flags, 0)
    case None => None
    case Some(first) => NextTrue(flags, first + 1)
  }

  /** The index of the second line of the whole note that strips to `---`. Unlike the
      frontmatter parser, the first such line need not be the first line. */
  function SecondSeparator(lines: seq<string>): Option<nat> {
    SecondTrue(SeparatorFlags(lines))
  }

  /** The lines links are taken from: those after the second separator, or all lines when
      there is no second separator. */
  function BodyLines(lines: seq<string>): seq<string> {
    match SecondSeparator(lines)
    case Some(e) => lines[e + 1..]
    case None => lines
  }

  /** What `extract_assets_from_file` returns for a note's content. */
  function AssetLinks(content: string): seq<string> {
    LinksOfLines(BodyLines(Lines(content)))
  }

  // ---------------------------------------------------------------------------------------
  // Properties

  /** Reading one more flag adds one to the count exactly when it is set. */
  lemma CountStep(flags: seq<bool>, k: nat)
    requires k < |flags|
    ensures CountTrue(flags[..k + 1]) == CountTrue(flags[..k]) + (if flags[k] then 1 else 0)
  {
    assert flags[..k + 1][..k] == flags[..k];
  }

  /** Unset flags leave the count unchanged. */
  lemma {:induction false} CountFlat(flags: seq<bool>, i: nat, k: nat)
    requires i <= k <= |flags|
    requires forall j :: i <= j < k ==> !flags[j]
    ensures CountTrue(flags[..k]) == CountTrue(flags[..i])
    decreases k - i
  {
    if i < k {
      CountFlat(flags, i, k - 1);
      CountStep(flags, k - 1);
    }
  }

  /** The count never decreases as more flags are read. */
  lemma {:induction false} CountMonotone(flags: seq<bool>, i: nat, k: nat)
    requires i <= k <= |flags|
    ensures CountTrue(flags[..i]) <= CountTrue(flags[..k])
    decreases k - i
  {
    if i < k {
      CountMonotone(flags, i, k - 1);
      CountStep(flags, k - 1);
    }
  }

  lemma {:induction false} SeparatorsBeforeIsCount(lines: seq<string>, k: nat)
    requires k <= |lines|
    ensures SeparatorsBefore(lines, k) == CountTrue(SeparatorFlags(lines)[..k])
  {
    if k > 0 {
      var flags := SeparatorFlags(lines);
      SeparatorsBeforeIsCount(lines, k - 1);
      CountStep(flags, k - 1);
      assert flags[k - 1] == IsSeparator(lines[k - 1]);
    } else {
      assert SeparatorFlags(lines)[..0] == [];
    }
  }

  /** The second set flag is the one at which the count, read from the start, reaches two. */
  lemma SecondTrueByCount(flags: seq<bool>, e: nat)
    requires e < |flags|
    ensures SecondTrue(flags) == Some(e) <==> flags[e] && CountTrue(flags[..e]) == 1
  {
    assert flags[..0] == [];
    match NextTrue(flags, 0)
    case None =>
      CountFlat(flags, 0, e);
    case Some(f) =>
      CountFlat(flags, 0, f);
      CountStep(flags, f);
      if e <= f {
        CountFlat(flags, 0, e);
      } else {
        match NextTrue(flags, f + 1)
        case Some(s) =>
          if s < e {
            CountFlat(flags, f + 1, s);
            CountStep(flags, s);
            CountMonotone(flags, s + 1, e);
          } else {
            CountFlat(flags, f + 1, e);
          }
        case None =>
          CountFlat(flags, f + 1, e);
    }
  }

  /** Without a second set flag, at most one flag is set. */
  lemma AtMostOneWithoutSecond(flags: seq<bool>)
    requires SecondTrue(flags).None?
    ensures CountTrue(flags[..|flags|]) < 2
  {
    assert flags[..0] == [];
    match NextTrue(flags, 0)
    case None =>
      CountFlat(flags, 0, |flags|);
    case Some(f) =>
      CountFlat(flags, 0, f);
      CountStep(flags, f);
      CountFlat(flags, f + 1, |flags|);
  }

  /** There is no second set flag exactly when fewer than two flags are set. */
  lemma SecondTrueNoneByCount(flags: seq<bool>)
    ensures SecondTrue(flags).None? <==> CountTrue(flags) < 2
  {
    assert flags[..|flags|] == flags;
    match SecondTrue(flags)
    case Some(e) =>
      SecondTrueByCount(flags, e);
      CountStep(flags, e);
      CountMonotone(flags, e + 1, |flags|);
    case None =>
      AtMostOneWithoutSecond(flags);
  }

  lemma AssetsOnlyStep(targets: seq<string>, k: nat)
    requires k < |targets|
    ensures AssetsOnly(targets[..k + 1]) ==
      AssetsOnly(targets[..k]) + (if Contains(targets[k], ASSETS) then [targets[k]] else [])
  {
    assert targets[..k + 1][..k] == targets[..k];
  }

  lemma LinksOfLinesStep(lines: seq<string>, j: nat)
    requires j < |lines|
    ensures LinksOfLines(lines[..j + 1]) == LinksOfLines(lines[..j]) + LineLinks(lines[j])
  {
    assert lines[..j + 1][..j] == lines[..j];
  }

  /** Asset links of consecutive groups of lines are concatenated in document order. */
  lemma {:induction false} LinksOfLinesAppend(a: seq<string>, b: seq<string>)
    ensures LinksOfLines(a + b) == LinksOfLines(a) + LinksOfLines(b)
    decreases |b|
  {
    if b == [] {
      assert a + b == a;
    } else {
      var n := |b| - 1;
      var ab := a + b;
      assert ab[..|ab| - 1] == a + b[..n];
      assert ab[|ab| - 1] == b[n];
      LinksOfLinesAppend(a, b[..n]);
      calc {
        LinksOfLines(ab);
        LinksOfLines(a + b[..n]) + LineLinks(b[n]);
        (LinksOfLines(a) + LinksOfLines(b[..n])) + LineLinks(b[n]);
        LinksOfLines(a) + (LinksOfLines(b[..n]) + LineLinks(b[n]));
        LinksOfLines(a) + LinksOfLines(b);
      }
    }
  }

  /** The filter keeps exactly the targets that contain `assets`, in their order. */
  lemma {:induction false} AssetsOnlyMembers(targets: seq<string>, x: string)
    ensures x in AssetsOnly(targets) <==> x in targets && Contains(x, ASSETS)
    decreases |targets|
  {
    if targets != [] {
      var n := |targets| - 1;
      AssetsOnlyMembers(targets[..n], x);
      assert targets == targets[..n] + [targets[n]];
    }
  }

  /** Every extracted link contains `assets` and is the target captured by a match of the
      link pattern lying within a single body line. */
  lemma {:induction false} LinksOfLinesSound(lines: seq<string>, x: string)
    requires x in LinksOfLines(lines)
    ensures Contains(x, ASSETS)
    ensures exists i, p: nat, e: nat :: 0 <= i < |lines| && IsLinkAt(lines[i], p, e, x)
    decreases |lines|
  {
    var n := |lines| - 1;
    if x in LinksOfLines(lines[..n]) {
      LinksOfLinesSound(lines[..n], x);
      var i, p: nat, e: nat :| 0 <= i < n && IsLinkAt(lines[..n][i], p, e, x);
      assert lines[..n][i] == lines[i];
    } else {
      AssetsOnlyMembers(LinkTargets(lines[n]), x);
      FindAllSound(lines[n], 0, x);
    }
  }

  /** The extracted links of a note are the targets of pattern matches in its body that
      contain `assets`. */
  lemma AssetLinksSound(content: string, x: string)
    requires x in AssetLinks(content)
    ensures Contains(x, ASSETS)
    ensures exists i, p: nat, e: nat ::
      (0 <= i < |BodyLines(Lines(content))| && IsLinkAt(BodyLines(Lines(content))[i], p, e, x))
  {
    LinksOfLinesSound(BodyLines(Lines(content)), x);
  }

  /** The body is the lines after the second separator line; the separators need not open
      the note. */
  lemma BodyAfterSecondSeparator(lines: seq<string>, e: nat)
    requires e < |lines| && IsSeparator(lines[e]) && SeparatorsBefore(lines, e) == 1
    ensures SecondSeparator(lines) == Some(e)
    ensures BodyLines(lines) == lines[e + 1..]
  {
    SeparatorsBeforeIsCount(lines, e);
    SecondTrueByCount(SeparatorFlags(lines), e);
  }

  /** With fewer than two separator lines the whole note is the body. */
  lemma BodyWithoutSecondSeparator(lines: seq<string>)
    requires SeparatorsBefore(lines, |lines|) < 2
    ensures SecondSeparator(lines).None?
    ensures BodyLines(lines) == lines
  {
    SeparatorsBeforeIsCount(lines, |lines|);
    assert SeparatorFlags(lines)[..|lines|] == SeparatorFlags(lines);
    SecondTrueNoneByCount(SeparatorFlags(lines));
  }

  // ---------------------------------------------------------------------------------------
  // The extraction loop

  /** A string in which no character equal to the first of `t` is followed by the second of
      `t` does not contain `t`. */
  lemma NoPairNoContains(s: string, t: string)
    requires |t| >= 2
    requires forall i :: 0 <= i < |s| - 1 ==> s[i] != t[0] || s[i + 1] != t[1]
    ensures !Contains(s, t)
  {
    ContainsIff(s, t);
  }

  /** `https://example.com` does not mention `assets`. */
  lemma ExternalLinkIsNotAsset()
    ensures !Contains("https://example.com", ASSETS)
  {
    var url := "https://example.com";
    forall i | 0 <= i < |url| - 1
      ensures url[i] != 'a' || url[i + 1] != 's'
    {
    }
    NoPairNoContains(url, ASSETS);
  }

  /** The inline link `[text](target)`. */
  function Display(text: string, target: string): string {
    "[" + text + "](" + target + ")"
  }

  /** An inline link with no `]` in its text and no `)` in its target is a match capturing the
      target, wherever it stands on the line. */
  lemma DisplayMatches(before: string, text: string, target: string, after: string)
    requires ']' !in text && ')' !in target
    ensures IsLinkAt(before + Display(text, target) + after,
                     |before|, |before| + |text| + |target| + 4, target)
  {
    var line := before + Display(text, target) + after;
    var p, c := |before|, |before| + 1 + |text|;
    assert line[p] == '[';
    forall t | p < t < c
      ensures line[t] != ']'
    {
      assert line[t] == text[t - p - 1];
    }
    assert line[c] == ']' && line[c + 1] == '(';
    assert line[c + 2..c + 2 + |target|] == target;
    assert line[c + 2 + |target|] == ')';
  }

  /** A line that is one inline link yields its target. */
  lemma OneDisplayTarget(text: string, target: string)
    requires ']' !in text && ')' !in target
    ensures LinkTargets(Display(text, target)) == [target]
  {
    var line := Display(text, target);
    DisplayMatches([], text, target, []);
    assert [] + line + [] == line;
    FindAllLeftmost(line, 0, 0, |line|, target);
  }

  /** An inline link whose text and target hold no line break holds none either. */
  lemma DisplayNoBreaks(text: string, target: string)
    requires NoBreaks(text) && NoBreaks(target)
    ensures NoBreaks(Display(text, target))
  {
    var d := Display(text, target);
    forall t | 0 <= t < |d|
      ensures !IsLineBreak(d[t])
    {
      if 1 <= t < 1 + |text| {
        assert d[t] == text[t - 1];
      } else if 3 + |text| <= t < 3 + |text| + |target| {
        assert d[t] == target[t - 3 - |text|];
      }
    }
  }

  /** Two inline links separated by text without `[` yield both targets, in order. */
  lemma TwoDisplaysTargets(text1: string, target1: string, gap: string, text2: string, target2: string)
    requires ']' !in text1 && ')' !in target1 && ']' !in text2 && ')' !in target2
    requires '[' !in gap
    ensures LinkTargets(Display(text1, target1) + gap + Display(text2, target2)) == [target1, target2]
  {
    var first, second := Display(text1, target1), Display(text2, target2);
    var line := first + gap + second;
    DisplayMatches([], text1, target1, gap + second);
    assert [] + first + (gap + second) == line;
    FindAllLeftmost(line, 0, 0, |first|, target1);
    DisplayMatches(first + gap, text2, target2, []);
    assert first + gap + second + [] == line;
    forall p': nat, e': nat, t | |first| <= p' < |first| + |gap|
      ensures !IsLinkAt(line, p', e', t)
    {
      assert line[p'] == gap[p' - |first|];
    }
    FindAllLeftmost(line, |first|, |first| + |gap|, |line|, target2);
  }

  /** Of two targets of which only the first mentions `assets`, only the first is kept. */
  lemma AssetsOnlyPair(a: string, b: string)
    requires Contains(a, ASSETS) && !Contains(b, ASSETS)
    ensures AssetsOnly([a, b]) == [a]
  {
    assert [a, b][..1] == [a];
    assert [a][..0] == [];
    assert AssetsOnly([a]) == AssetsOnly([]) + [a];
    assert AssetsOnly([a, b]) == AssetsOnly([a]) + [];
  }

  /** Of the targets `assets/a.png` and `https://example.com`, only the first is kept. */
  lemma ExampleAssetsOnly()
    ensures AssetsOnly(["assets/a.png", "https://example.com"]) == ["assets/a.png"]
  {
    var image := "assets/a.png";
    assert StartsWith(image, ASSETS);
    ExternalLinkIsNotAsset();
    AssetsOnlyPair(image, "https://example.com");
  }

  /** On the line `[img](assets/a.png) and [site](https://example.com)` the pattern matches
      twice, and only the first target is an asset link. */
  lemma LineLinksExample()
    ensures LineLinks(Display("img", "assets/a.png") + " and " + Display("site", "https://example.com"))
         == ["assets/a.png"]
  {
    var image, url := "assets/a.png", "https://example.com";
    assert ']' !in "img" && ']' !in "site";
    assert ')' !in image;
    assert ')' !in url;
    assert '[' !in " and ";
    TwoDisplaysTargets("img", image, " and ", "site", url);
    ExampleAssetsOnly();
  }

  /** The first half of `extract_assets_from_file`: count the separator lines from the top
      and stop at the second; 0 when there is none. */
  method FindBodyStart(lines: seq<string>) returns (endIdx: nat)
    ensures endIdx == 0 ==> SecondSeparator(lines).None?
    ensures endIdx > 0 ==> SecondSeparator(lines) == Some(endIdx)
  {
    endIdx := 0;
    var separatorCount := 0;
    var i := 0;
    while i < |lines|
      invariant 0 <= i <= |lines|
      invariant separatorCount < 2 && separatorCount <= i
      invariant separatorCount == SeparatorsBefore(lines, i)
    {
      if IsSeparator(lines[i]) {
        separatorCount := separatorCount + 1;
        if separatorCount == 2 {
          endIdx := i;
          BodyAfterSecondSeparator(lines, i);
          return;
        }
      }
      i := i + 1;
    }
    BodyWithoutSecondSeparator(lines);
  }

  /** The asset targets of one line: `re.findall` with the link pattern, then the filter on
      `assets`, appending in order. */
  method LineAssetLinks(line: string) returns (links: seq<string>)
    ensures links == LineLinks(line)
  {
    links := [];
    var linkPaths := LinkTargets(line);
    var k := 0;
    while k < |linkPaths|
      invariant 0 <= k <= |linkPaths|
      invariant links == AssetsOnly(linkPaths[..k])
    {
      AssetsOnlyStep(linkPaths, k);
      if Contains(linkPaths[k], ASSETS) {
        links := links + [linkPaths[k]];
      }
      k := k + 1;
    }
    assert linkPaths[..k] == linkPaths;
  }

  /** `extract_assets_from_file` on a note whose content could be read (`Some`) or not
      (`None`): find where the body starts, then collect the asset targets of every body
      line. */
  method ExtractAssetsFromFile(content: Option<string>) returns (extractedLinks: seq<string>)
    ensures content.None? ==> extractedLinks == []
    ensures content.Some? ==> extractedLinks == AssetLinks(content.value)
  {
    extractedLinks := [];
    if content.None? {
      return;
    }
    var lines := Lines(content.value);
    var endIdx := FindBodyStart(lines);
    var contentLines := if endIdx > 0 then lines[endIdx + 1..] else lines;
    assert contentLines == BodyLines(lines);
    var j := 0;
    while j < |contentLines|
      invariant 0 <= j <= |contentLines|
      invariant extractedLinks == LinksOfLines(contentLines[..j])
    {
      var links := LineAssetLinks(contentLines[j]);
      LinksOfLinesStep(contentLines, j);
      extractedLinks := extractedLinks + links;
      j := j + 1;
    }
    assert contentLines[..j] == contentLines;
  }
}
