/** The frontmatter block at the top of a note (`NotesPublisher.parse_frontmatter`) and the
    two classifications read from it (`is_public_note`, `has_now_tag`). */
module Frontmatter {
  import opened Text

  const SEPARATOR := "---"

  /** A line that strips to `---`. */
  predicate IsSeparator(line: string) {
    Strip(line) == SEPARATOR
  }

  /** The index of the first separator line at or after `from`. */
  function FindSeparator(lines: seq<string>, from: nat): (r: Option<nat>)
    decreases |lines| - from
    ensures r.Some? ==> from <= r.value < |lines| && IsSeparator(lines[r.value])
    ensures r.Some? ==> forall j :: from <= j < r.value ==> !IsSeparator(lines[j])
    ensures r.None? ==> forall j :: from <= j < |lines| ==> !IsSeparator(lines[j])
  {
    if from >= |lines| then None
    else if IsSeparator(lines[from]) then Some(from)
    else FindSeparator(lines, from + 1)
  }

  /** The first separator at or after `from` is the one at `e` when none lies before it. */
  lemma {:induction false} FindSeparatorAt(lines: seq<string>, from: nat, e: nat)
    requires from <= e < |lines| && IsSeparator(lines[e])
    requires forall j :: from <= j < e ==> !IsSeparator(lines[j])
    ensures FindSeparator(lines, from) == Some(e)
    decreases e - from
  {
    if from < e {
      FindSeparatorAt(lines, from + 1, e);
    }
  }

  /** The stripped key and value of a line, split at its first colon; None for a line
      without a colon. */
  function SplitEntry(line: string): Option<(string, string)> {
    if ':' in line then
      var parts := SplitAtFirst(line, ':');
      Some((Strip(parts.0), Strip(parts.1)))
    else None
  }

  /** Each line's entry, in order. */
  function LineEntries(lines: seq<string>): (r: seq<Option<(string, string)>>)
    decreases |lines|
    ensures |r| == |lines|
  {
    if lines == [] then []
    else LineEntries(lines[..|lines| - 1]) + [SplitEntry(lines[|lines| - 1])]
  }

  lemma {:induction false} LineEntriesAt(lines: seq<string>, i: nat)
    requires i < |lines|
    ensures LineEntries(lines)[i] == SplitEntry(lines[i])
    decreases |lines|
  {
    var n := |lines| - 1;
    if i < n {
      LineEntriesAt(lines[..n], i);
    }
  }

  /** The entry carries the key `key`. */
  predicate HasKey(entry: Option<(string, string)>, key: string) {
    entry.Some? && entry.value.0 == key
  }

  /** The dictionary filled from `entries` in order, a later key overwriting an earlier one. */
  function EntryMap(entries: seq<Option<(string, string)>>): map<string, string>
    decreases |entries|
  {
    if entries == [] then map[]
    else
      var before := EntryMap(entries[..|entries| - 1]);
      match entries[|entries| - 1]
      case None => before
      case Some(entry) => before[entry.0 := entry.1]
  }

  /** The dictionary read from the lines of a note that starts with `---`: the entries of
      the lines strictly between the first line and the next separator, if there is one. */
  function BlockOf(lines: seq<string>): map<string, string> {
    match FindSeparator(lines, 1)
    case None => map[]
    case Some(e) => EntryMap(LineEntries(lines[1..e]))
  }

  /** What `parse_frontmatter` returns for `content`. */
  function FrontmatterOf(content: string): map<string, string> {
    if !StartsWith(content, SEPARATOR) then map[] else BlockOf(Lines(content))
  }

  /** A key is present exactly when some entry carries it. */
  lemma {:induction false} EntryMapKeys(entries: seq<Option<(string, string)>>, key: string)
    ensures key in EntryMap(entries) <==> exists i :: 0 <= i < |entries| && HasKey(entries[i], key)
    decreases |entries|
  {
    if entries != [] {
      var n := |entries| - 1;
      var init := entries[..n];
      EntryMapKeys(init, key);
      if key in EntryMap(init) {
        var i :| 0 <= i < n && HasKey(init[i], key);
        assert entries[i] == init[i];
      }
      if !HasKey(entries[n], key) && exists i :: 0 <= i < |entries| && HasKey(entries[i], key) {
        var i :| 0 <= i < |entries| && HasKey(entries[i], key);
        assert init[i] == entries[i];
      }
    }
  }

  /** A key's value is the one of the last entry that carries it. */
  lemma {:induction false} EntryMapLastWins(entries: seq<Option<(string, string)>>, key: string, i: nat)
    requires i < |entries| && HasKey(entries[i], key)
    requires forall j :: i < j < |entries| ==> !HasKey(entries[j], key)
    ensures key in EntryMap(entries) && EntryMap(entries)[key] == entries[i].value.1
    decreases |entries|
  {
    var n := |entries| - 1;
    if i < n {
      var init := entries[..n];
      assert init[i] == entries[i];
      assert forall j :: i < j < n ==> init[j] == entries[j];
      EntryMapLastWins(init, key, i);
    }
  }

  /** With `e` the first line after the opening one that strips to `---` (see
      `FindSeparator`), the keys are those of the lines strictly between the two that hold a
      colon. */
  lemma BlockKeys(lines: seq<string>, e: nat, key: string)
    requires FindSeparator(lines, 1) == Some(e)
    ensures key in BlockOf(lines) <==> exists i :: 1 <= i < e && HasKey(SplitEntry(lines[i]), key)
  {
    var block := lines[1..e];
    var entries := LineEntries(block);
    EntryMapKeys(entries, key);
    if key in BlockOf(lines) {
      var i :| 0 <= i < |entries| && HasKey(entries[i], key);
      LineEntriesAt(block, i);
      assert block[i] == lines[i + 1];
    }
    if exists i :: 1 <= i < e && HasKey(SplitEntry(lines[i]), key) {
      var i :| 1 <= i < e && HasKey(SplitEntry(lines[i]), key);
      LineEntriesAt(block, i - 1);
      assert block[i - 1] == lines[i];
    }
  }

  /** Of several lines with the same key, the last one before the closing separator gives
      the value. */
  lemma BlockLastWins(lines: seq<string>, e: nat, key: string, i: nat)
    requires FindSeparator(lines, 1) == Some(e)
    requires 1 <= i < e && HasKey(SplitEntry(lines[i]), key)
    requires forall j :: i < j < e ==> !HasKey(SplitEntry(lines[j]), key)
    ensures key in BlockOf(lines) && BlockOf(lines)[key] == SplitEntry(lines[i]).value.1
  {
    var block := lines[1..e];
    var entries := LineEntries(block);
    LineEntriesAt(block, i - 1);
    assert block[i - 1] == lines[i];
    forall j | i - 1 < j < |entries|
      ensures !HasKey(entries[j], key)
    {
      LineEntriesAt(block, j);
      assert block[j] == lines[j + 1];
    }
    EntryMapLastWins(entries, key, i - 1);
  }

  /** The frontmatter of a note is the block of its lines when the note starts with `---`. */
  lemma FrontmatterIsBlock(content: string)
    ensures StartsWith(content, SEPARATOR) ==> FrontmatterOf(content) == BlockOf(Lines(content))
    ensures !StartsWith(content, SEPARATOR) ==> FrontmatterOf(content) == map[]
    ensures FrontmatterOf(content) != map[] ==>
      StartsWith(content, SEPARATOR) && FindSeparator(Lines(content), 1).Some?
  {
  }

  /** A line holding a colon yields its text before the first colon as key and the text
      after it as value, both stripped; a line without a colon yields nothing. */
  lemma SplitEntryMeaning(line: string)
    ensures SplitEntry(line).None? <==> ':' !in line
    ensures SplitEntry(line).Some? ==> exists k :: (0 <= k < |line| && line[k] == ':'
      && ':' !in line[..k] && SplitEntry(line).value == (Strip(line[..k]), Strip(line[k + 1..])))
  {
    if ':' in line {
      var parts := SplitAtFirst(line, ':');
      var k := |parts.0|;
      assert line[..k] == parts.0;
      assert line[k + 1..] == parts.1;
    }
  }

  /** Filling the dictionary from one more line extends the entries by that line's entry. */
  lemma EntryMapStep(lines: seq<string>, lo: nat, j: nat)
    requires lo <= j < |lines|
    ensures EntryMap(LineEntries(lines[lo..j + 1])) ==
      match SplitEntry(lines[j])
      case None => EntryMap(LineEntries(lines[lo..j]))
      case Some(entry) => EntryMap(LineEntries(lines[lo..j]))[entry.0 := entry.1]
  {
    assert lines[lo..j + 1][..j - lo] == lines[lo..j];
  }

  /** `parse_frontmatter`: find the closing separator, then fill the dictionary line by line. */
  method ParseFrontmatter(content: string) returns (frontmatter: map<string, string>)
    ensures frontmatter == FrontmatterOf(content)
  {
    frontmatter := map[];
    if !StartsWith(content, SEPARATOR) {
      return;
    }
    var lines := Lines(content);
    var endIdx: Option<nat> := None;
    var i := 1;
    while i < |lines|
      invariant 1 <= i
      invariant endIdx == None
      invariant forall j :: 1 <= j < i && j < |lines| ==> !IsSeparator(lines[j])
    {
      if Strip(lines[i]) == SEPARATOR {
        endIdx := Some(i);
        break;
      }
      i := i + 1;
    }
    if endIdx == None {
      assert FindSeparator(lines, 1) == None;
      return;
    }
    var e := endIdx.value;
    FindSeparatorAt(lines, 1, e);
    assert FrontmatterOf(content) == BlockOf(lines) == EntryMap(LineEntries(lines[1..e]));
    var j := 1;
    while j < e
      invariant 1 <= j <= e
      invariant frontmatter == EntryMap(LineEntries(lines[1..j]))
    {
      var line := lines[j];
      EntryMapStep(lines, 1, j);
      if ':' in line {
        var parts := SplitAtFirst(line, ':');
        frontmatter := frontmatter[Strip(parts.0) := Strip(parts.1)];
      }
      j := j + 1;
    }
  }

  /** A block whose closing separator is its third line holds the entry of its second line. */
  lemma BlockOneEntry(lines: seq<string>)
    requires |lines| >= 3 && !IsSeparator(lines[1]) && IsSeparator(lines[2])
    ensures BlockOf(lines) == EntryMap([SplitEntry(lines[1])])
  {
    FindSeparatorAt(lines, 1, 2);
    assert lines[1..2] == [lines[1]];
    assert [lines[1]][..0] == [];
  }

  /** One entry gives a dictionary of one key. */
  lemma EntryMapOne(key: string, value: string)
    ensures EntryMap([Some((key, value))]) == map[key := value]
  {
    assert [Some((key, value))][..0] == [];
  }

  /** `frontmatter.get(key, "")`. */
  function Get(frontmatter: map<string, string>, key: string): string {
    if key in frontmatter then frontmatter[key] else ""
  }

  /** The test `is_public_note` applies to the frontmatter of a note. */
  predicate IsPublic(frontmatter: map<string, string>) {
    Lower(Get(frontmatter, "public")) == "true"
  }

  /** The test `has_now_tag` applies to the frontmatter of a note. */
  predicate HasNowTag(frontmatter: map<string, string>) {
    Contains(Lower(Get(frontmatter, "tags")), "now")
  }

  /** A note is public exactly when its `public` value is `true` up to case; an absent key
      makes it private. */
  lemma IsPublicIff(frontmatter: map<string, string>)
    ensures IsPublic(frontmatter) <==>
      "public" in frontmatter && EqualsIgnoringCase(frontmatter["public"], "true")
  {
    LowerEqualsIff(Get(frontmatter, "public"), "true");
  }

  /** A note is a now-post exactly when `now` occurs anywhere in its lower-cased `tags`
      value; an absent key gives false. */
  lemma HasNowTagIff(frontmatter: map<string, string>)
    ensures HasNowTag(frontmatter) <==>
      "tags" in frontmatter && exists i: nat :: OccursAt(Lower(Get(frontmatter, "tags")), "now", i)
  {
    ContainsIff(Lower(Get(frontmatter, "tags")), "now");
    if "tags" !in frontmatter {
      assert Lower(Get(frontmatter, "tags")) == "";
      assert forall i :: !OccursAt("", "now", i);
    } else {
      assert HasNowTag(frontmatter) == Contains(Lower(Get(frontmatter, "tags")), "now");
    }
  }

  /** Lower-casing a string without upper-case ASCII letters changes nothing. */
  lemma LowerUnchanged(s: string)
    requires forall i :: 0 <= i < |s| ==> !('A' <= s[i] <= 'Z')
    ensures Lower(s) == s
  {
  }

  /** The test is plain substring containment, not a match on whole tags: `unknown` counts
      as a now-post. */
  lemma UnknownIsNowPost()
    ensures HasNowTag(map["tags" := "unknown"])
  {
    var tags := "unknown";
    LowerUnchanged(tags);
    assert tags[3..6] == "now";
    assert OccursAt(tags, "now", 3);
    ContainsIff(tags, "now");
  }

  /** A tag list without `now` in it is not a now-post. */
  lemma LaterIsNotNowPost()
    ensures !HasNowTag(map["tags" := "later"])
  {
    var tags := "later";
    LowerUnchanged(tags);
    ContainsIff(tags, "now");
    forall i: nat
      ensures !OccursAt(tags, "now", i)
    {
      if i + 3 <= |tags| {
        assert tags[i] != 'n';
      }
    }
  }
}
