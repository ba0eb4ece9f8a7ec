/** The scans of `NotesPublisher` over the notes directory: `is_public_note`, `has_now_tag`,
    `find_public_notes`, `find_now_notes` and the asset whitelist `collect_public_assets`.
    The directory walk is its result: the sequence of markdown notes it yields. */
module Publisher {
  import opened Text
  import opened Frontmatter
  import opened Links
  import opened StringOrder

  /** A markdown file found under the notes directory: its path and its content, `None` when
      reading it failed. */
  datatype Note = Note(path: string, content: Option<string>)

  /** `is_public_note`: the note could be read and its frontmatter says `public: true`. */
  predicate IsPublicNote(note: Note) {
    note.content.Some? && IsPublic(FrontmatterOf(note.content.value))
  }

  /** `has_now_tag`: the note could be read and its `tags` value mentions `now`. */
  predicate IsNowNote(note: Note) {
    note.content.Some? && HasNowTag(FrontmatterOf(note.content.value))
  }

  /** `extract_assets_from_file` for a note: no links when it cannot be read. */
  function NoteLinks(note: Note): seq<string> {
    if note.content.None? then [] else AssetLinks(note.content.value)
  }

  /** The public notes, in walk order. */
  function PublicNotes(notes: seq<Note>): seq<Note>
    decreases |notes|
  {
    if notes == [] then []
    else
      var last := notes[|notes| - 1];
      PublicNotes(notes[..|notes| - 1]) + (if IsPublicNote(last) then [last] else [])
  }

  /** The now-posts, in walk order. */
  function NowNotes(notes: seq<Note>): seq<Note>
    decreases |notes|
  {
    if notes == [] then []
    else
      var last := notes[|notes| - 1];
      NowNotes(notes[..|notes| - 1]) + (if IsNowNote(last) then [last] else [])
  }

  /** The union of the links of the given notes. */
  function LinkUnion(notes: seq<Note>): set<string>
    decreases |notes|
  {
    if notes == [] then {}
    else LinkUnion(notes[..|notes| - 1]) + ElementsOf(NoteLinks(notes[|notes| - 1]))
  }

  /** The asset whitelist as a set: every link of every public note. */
  function PublicAssetSet(notes: seq<Note>): set<string> {
    LinkUnion(PublicNotes(notes))
  }

  /** The asset whitelist as `collect_public_assets` returns it: sorted, without duplicates. */
  function PublicAssets(notes: seq<Note>): seq<string> {
    SortedElements(PublicAssetSet(notes))
  }

  // ---------------------------------------------------------------------------------------
  // Properties

  /** The public notes are exactly the notes that are public. */
  lemma {:induction false} PublicNotesMembers(notes: seq<Note>, n: Note)
    ensures n in PublicNotes(notes) <==> n in notes && IsPublicNote(n)
    decreases |notes|
  {
    if notes != [] {
      var k := |notes| - 1;
      PublicNotesMembers(notes[..k], n);
      assert notes == notes[..k] + [notes[k]];
    }
  }

  /** The now-posts are exactly the notes whose tags mention `now`. */
  lemma {:induction false} NowNotesMembers(notes: seq<Note>, n: Note)
    ensures n in NowNotes(notes) <==> n in notes && IsNowNote(n)
    decreases |notes|
  {
    if notes != [] {
      var k := |notes| - 1;
      NowNotesMembers(notes[..k], n);
      assert notes == notes[..k] + [notes[k]];
    }
  }

  /** A string is in the union exactly when it is a link of one of the notes. */
  lemma {:induction false} LinkUnionMembers(notes: seq<Note>, x: string)
    ensures x in LinkUnion(notes) <==> exists n :: n in notes && x in NoteLinks(n)
    decreases |notes|
  {
    if notes != [] {
      var k := |notes| - 1;
      var init, last := notes[..k], notes[k];
      assert notes == init + [last];
      LinkUnionMembers(init, x);
      var lastLinks := NoteLinks(last);
      assert LinkUnion(notes) == LinkUnion(init) + ElementsOf(lastLinks);
      if x in LinkUnion(notes) {
        if x in LinkUnion(init) {
          var n :| n in init && x in NoteLinks(n);
          assert n in notes;
        } else {
          assert x in lastLinks;
          assert last in notes;
        }
      }
      if exists n :: n in notes && x in NoteLinks(n) {
        var n :| n in notes && x in NoteLinks(n);
        if n != last {
          assert n in init;
        }
      }
    }
  }

  /** A string is whitelisted exactly when some public note links to it. */
  lemma PublicAssetSetMembers(notes: seq<Note>, x: string)
    ensures x in PublicAssetSet(notes) <==> exists n :: n in notes && IsPublicNote(n) && x in NoteLinks(n)
  {
    LinkUnionMembers(PublicNotes(notes), x);
    forall n
      ensures n in PublicNotes(notes) <==> n in notes && IsPublicNote(n)
    {
      PublicNotesMembers(notes, n);
    }
  }

  /** The whitelist does not depend on the order in which the walk yields the notes. */
  lemma PublicAssetSetOrderIndependent(a: seq<Note>, b: seq<Note>)
    requires multiset(a) == multiset(b)
    ensures PublicAssetSet(a) == PublicAssetSet(b)
  {
    forall x
      ensures x in PublicAssetSet(a) <==> x in PublicAssetSet(b)
    {
      PublicAssetSetMembers(a, x);
      PublicAssetSetMembers(b, x);
      assert forall n :: n in a <==> n in multiset(a);
      assert forall n :: n in b <==> n in multiset(b);
    }
  }

  /** `assets/a.png` sorts before `assets/b.png`, so sorting the two gives them in that order. */
  lemma SortedAssetPair()
    ensures SortedElements({"assets/a.png", "assets/b.png"}) == ["assets/a.png", "assets/b.png"]
  {
    var a, b := "assets/a.png", "assets/b.png";
    assert a[7..] == "a.png" && b[7..] == "b.png";
    assert Less(a[7..], b[7..]);
    assert Less(a, b) by {
      assert Less(a[6..], b[6..]) by { assert a[6..][1..] == a[7..] && b[6..][1..] == b[7..]; }
      assert Less(a[5..], b[5..]) by { assert a[5..][1..] == a[6..] && b[5..][1..] == b[6..]; }
      assert Less(a[4..], b[4..]) by { assert a[4..][1..] == a[5..] && b[4..][1..] == b[5..]; }
      assert Less(a[3..], b[3..]) by { assert a[3..][1..] == a[4..] && b[3..][1..] == b[4..]; }
      assert Less(a[2..], b[2..]) by { assert a[2..][1..] == a[3..] && b[2..][1..] == b[3..]; }
      assert Less(a[1..], b[1..]) by { assert a[1..][1..] == a[2..] && b[1..][1..] == b[2..]; }
      assert a[1..] == a[1..] && b[0..][1..] == b[1..];
    }
    var expected := [a, b];
    assert StrictlyAscending(expected);
    AscendingUnique(SortedElements({a, b}), expected);
  }

  /** Whenever the public notes link exactly `assets/a.png` and `assets/b.png`, however often
      and in whichever notes, the whitelist is `["assets/a.png", "assets/b.png"]`. */
  lemma WhitelistExample(notes: seq<Note>)
    requires forall x :: x in PublicAssetSet(notes) <==> x == "assets/a.png" || x == "assets/b.png"
    ensures PublicAssets(notes) == ["assets/a.png", "assets/b.png"]
  {
    assert PublicAssetSet(notes) == {"assets/a.png", "assets/b.png"};
    SortedAssetPair();
  }

  /** The text of a small note, read from the file as a whole:

        ---
        public: TRUE
        ---
        [x](assets/x.png)
  */
  function ExampleNoteText(): string {
    SEPARATOR + "\n" + (EXAMPLE_ENTRY + "\n" + (SEPARATOR + "\n" + Display("x", "assets/x.png")))
  }

  const EXAMPLE_ENTRY := "public: TRUE"

  lemma ExampleNoBreaks()
    ensures NoBreaks(SEPARATOR) && NoBreaks(EXAMPLE_ENTRY)
    ensures NoBreaks(Display("x", "assets/x.png"))
  {
    assert NoBreaks("x") && NoBreaks("assets/x.png");
    DisplayNoBreaks("x", "assets/x.png");
  }

  /** `splitlines()` cuts the example note into its four lines. */
  lemma ExampleNoteLines()
    ensures Lines(ExampleNoteText()) == [SEPARATOR, EXAMPLE_ENTRY, SEPARATOR, Display("x", "assets/x.png")]
  {
    ExampleNoBreaks();
    LinesFour(SEPARATOR, EXAMPLE_ENTRY, SEPARATOR, Display("x", "assets/x.png"));
  }

  /** The entry line splits into the key `public` and the value `TRUE`. */
  lemma ExampleEntrySplit()
    ensures SplitEntry(EXAMPLE_ENTRY) == Some(("public", "TRUE"))
  {
    var entry := EXAMPLE_ENTRY;
    assert entry[6] == ':';
    assert forall t :: 0 <= t < 6 ==> entry[t] != ':';
    assert IndexOf(entry, ':', 0) == Some(6);
    assert entry[..6] == "public" && entry[7..] == " TRUE";
    assert SplitAtFirst(entry, ':') == ("public", " TRUE");
    StripUnchanged("public");
    var value := " TRUE";
    assert SkipSpaces(value, 0) == 1 && TrimEnd(value, 1, |value|) == |value|;
    assert value[1..] == "TRUE";
    assert Strip(value) == "TRUE";
  }

  /** The example note's frontmatter holds the one entry `public: TRUE`. */
  lemma ExampleNoteFrontmatter()
    ensures FrontmatterOf(ExampleNoteText()) == map["public" := "TRUE"]
  {
    ExampleNoteLines();
    assert StartsWith(ExampleNoteText(), SEPARATOR);
    StripUnchanged(EXAMPLE_ENTRY);
    StripUnchanged(SEPARATOR);
    BlockOneEntry(Lines(ExampleNoteText()));
    ExampleEntrySplit();
    EntryMapOne("public", "TRUE");
  }

  /** The example note's only link is its asset link. */
  lemma ExampleNoteLinks()
    ensures AssetLinks(ExampleNoteText()) == ["assets/x.png"]
  {
    var link := Display("x", "assets/x.png");
    var lines := Lines(ExampleNoteText());
    ExampleNoteLines();
    StripUnchanged(SEPARATOR);
    StripUnchanged(EXAMPLE_ENTRY);
    assert SeparatorsBefore(lines, 2) == 1;
    BodyAfterSecondSeparator(lines, 2);
    assert lines[3..] == [link];
    assert [link][..0] == [];
    ExampleBodyLink();
  }

  /** The body line `[x](assets/x.png)` gives its one target, which is an asset link. */
  lemma ExampleBodyLink()
    ensures LineLinks(Display("x", "assets/x.png")) == ["assets/x.png"]
  {
    assert ']' !in "x" && ')' !in "assets/x.png";
    OneDisplayTarget("x", "assets/x.png");
    assert StartsWith("assets/x.png", ASSETS);
    assert ["assets/x.png"][..0] == [];
  }

  /** From its text alone, the example note is public (`TRUE` up to case), and its asset
      links are `["assets/x.png"]`. */
  lemma ExampleNote()
    ensures IsPublicNote(Note("x.md", Some(ExampleNoteText())))
    ensures NoteLinks(Note("x.md", Some(ExampleNoteText()))) == ["assets/x.png"]
  {
    ExampleNoteFrontmatter();
    IsPublicIff(map["public" := "TRUE"]);
    assert EqualsIgnoringCase("TRUE", "true");
    ExampleNoteLinks();
  }

  /** A walk that finds only the example note gives the whitelist `["assets/x.png"]`. */
  lemma ExampleWhitelist()
    ensures PublicAssets([Note("x.md", Some(ExampleNoteText()))]) == ["assets/x.png"]
  {
    var notes := [Note("x.md", Some(ExampleNoteText()))];
    ExampleNote();
    forall x
      ensures x in PublicAssetSet(notes) <==> x == "assets/x.png"
    {
      PublicAssetSetMembers(notes, x);
    }
    assert PublicAssetSet(notes) == {"assets/x.png"};
    AscendingUnique(PublicAssets(notes), ["assets/x.png"]);
  }

  // ---------------------------------------------------------------------------------------
  // The scanning loops

  /** `find_public_notes`: keep the public notes in walk order. */
  method FindPublicNotes(notes: seq<Note>) returns (publicNotes: seq<Note>)
    ensures publicNotes == PublicNotes(notes)
  {
    publicNotes := [];
    var i := 0;
    while i < |notes|
      invariant 0 <= i <= |notes|
      invariant publicNotes == PublicNotes(notes[..i])
    {
      assert notes[..i + 1][..i] == notes[..i];
      var content := notes[i].content;
      if content.Some? {
        var frontmatter := ParseFrontmatter(content.value);
        if Lower(Get(frontmatter, "public")) == "true" {
          publicNotes := publicNotes + [notes[i]];
        }
      }
      i := i + 1;
    }
    assert notes[..i] == notes;
  }

  /** `find_now_notes`: keep the now-posts in walk order. */
  method FindNowNotes(notes: seq<Note>) returns (nowNotes: seq<Note>)
    ensures nowNotes == NowNotes(notes)
  {
    nowNotes := [];
    var i := 0;
    while i < |notes|
      invariant 0 <= i <= |notes|
      invariant nowNotes == NowNotes(notes[..i])
    {
      assert notes[..i + 1][..i] == notes[..i];
      var content := notes[i].content;
      if content.Some? {
        var frontmatter := ParseFrontmatter(content.value);
        if Contains(Lower(Get(frontmatter, "tags")), "now") {
          nowNotes := nowNotes + [notes[i]];
        }
      }
      i := i + 1;
    }
    assert notes[..i] == notes;
  }

  /** `collect_public_assets`: the union of the links of the public notes, sorted. The
      result is strictly ascending, so sorted and free of duplicates, and holds exactly the
      links of the public notes. */
  method CollectPublicAssets(notes: seq<Note>) returns (uniqueAssets: seq<string>)
    ensures StrictlyAscending(uniqueAssets)
    ensures forall x :: x in uniqueAssets <==> exists n :: n in notes && IsPublicNote(n) && x in NoteLinks(n)
    ensures uniqueAssets == PublicAssets(notes)
  {
    var publicNotes := FindPublicNotes(notes);
    var allPublicAssets: set<string> := {};
    var i := 0;
    while i < |publicNotes|
      invariant 0 <= i <= |publicNotes|
      invariant allPublicAssets == LinkUnion(publicNotes[..i])
    {
      assert publicNotes[..i + 1][..i] == publicNotes[..i];
      var assets := ExtractAssetsFromFile(publicNotes[i].content);
      allPublicAssets := allPublicAssets + ElementsOf(assets);
      i := i + 1;
    }
    assert publicNotes[..i] == publicNotes;
    uniqueAssets := SortedElements(allPublicAssets);
    forall x
      ensures x in uniqueAssets <==> exists n :: n in notes && IsPublicNote(n) && x in NoteLinks(n)
    {
      PublicAssetSetMembers(notes, x);
    }
  }
}
