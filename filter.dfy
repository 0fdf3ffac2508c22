/**
 * The search filter of tests/testlistview.c: match_file keeps a row when the
 * text of the search entry occurs in the path of the row's file.
 */
module Filter {
  import opened Files
  import opened CString

  /** match_file: the search text is a case-sensitive substring of the row's path. */
  function MatchFile(item: Entry, text: string): (r: bool)
    ensures r <==> exists i: nat :: OccursAt(item.file.path, text, i)
    ensures text == [] ==> r
  {
    assert text == [] ==> OccursAt(item.file.path, text, 0);
    Contains(item.file.path, text)
  }

  /** Typing more into the search entry can only hide rows: a row matching the longer text matches its start. */
  lemma NarrowingSearch(item: Entry, text: string, more: string)
    requires MatchFile(item, text + more)
    ensures MatchFile(item, text)
  {
    ContainsParts(item.file.path, text, more);
  }

  /**
   * When the search text occurs in a directory's path, every entry that
   * got_files adds for that directory matches too: a matching directory's
   * children are never filtered out.
   */
  lemma ChildrenOfMatchingDirectoryMatch(dir: Location, batch: seq<FileInfo>, text: string, i: nat)
    requires Contains(dir.path, text) && i < |batch|
    ensures MatchFile(Attach(dir, batch)[i], text)
  {
    ContainsInPrefix(dir.path, Attach(dir, batch)[i].file.path, text);
  }

  /** The match does not fold case: "a" does not find "/A", "A" does. */
  lemma MatchIsCaseSensitive()
    ensures var e := Entry(FileInfo("A", "A", Directory), Location("/A", true));
      !MatchFile(e, "a") && MatchFile(e, "A")
  {
    var p := "/A";
    assert OccursAt(p, "A", 1);
    assert !Contains(p[2..], "a");
    assert p[1..][1..] == p[2..] && p[1..][..1] == ['A'];
    assert !Contains(p[1..], "a");
    assert p[..1] == ['/'];
  }
}
