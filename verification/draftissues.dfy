/**
  The dependabot example's issue-drafting step
  (`examples/dependabot/steps/draft_issues/main.py`): the researched
  package updates are rendered as one text block for the drafting crew,
  and an empty list short-circuits without building a crew.
 */
module DraftIssues {
  import opened Wrappers
  import opened Strs

  /** One researched update: the keys `package`, `current_version` and `update`. */
  datatype PackageUpdate = PackageUpdate(package: string, currentVersion: string, update: string)

  const Separator := "------------------------------------------------------------------"

  /** The four lines describing one update, in order. */
  function Details(e: PackageUpdate): (r: seq<string>)
    ensures |r| == 4 && r[0] == "- Software Package: " + e.package && r[3] == Separator
  {
    [ "- Software Package: " + e.package,
      "- Current Package Version: " + e.currentVersion,
      "- Version Update Research (as Markdown):\n\n" + e.update,
      Separator ]
  }

  /** One entry's block: its details joined by blank lines. */
  function EntryBlock(e: PackageUpdate): (r: string)
    ensures IsPrefix("- Software Package: " + e.package, r)
    ensures IsSuffix("\n\n" + Separator, r)
  {
    var d := Details(e);
    JoinStartsWithFirst(d, "\n\n");
    JoinSnoc(d[..3], Separator, "\n\n");
    assert d[..3] + [Separator] == d;
    Join(d, "\n\n")
  }

  /** The entry blocks, one per update, in input order. */
  function Blocks(src: seq<PackageUpdate>): (r: seq<string>)
    ensures |r| == |src| && forall i :: 0 <= i < |src| ==> r[i] == EntryBlock(src[i])
  {
    seq(|src|, i requires 0 <= i < |src| => EntryBlock(src[i]))
  }

  /** `_format_package_updates`: the entry blocks joined by blank lines, in input order. */
  function FormatPackageUpdates(src: seq<PackageUpdate>): (r: string)
    ensures |src| == 0 <==> r == ""
    ensures |src| > 0 ==> IsPrefix("- Software Package: " + src[0].package, r)
  {
    var blocks := Blocks(src);
    if |src| == 0 then ""
    else
      JoinStartsWithFirst(blocks, "\n\n");
      var r := Join(blocks, "\n\n");
      assert IsPrefix(blocks[0], r);
      assert |blocks[0]| > 0;
      r
  }

  /** Appending an update appends its block after a blank line and changes nothing before it. */
  lemma FormatSnoc(src: seq<PackageUpdate>, e: PackageUpdate)
    requires |src| > 0
    ensures FormatPackageUpdates(src + [e]) == FormatPackageUpdates(src) + "\n\n" + EntryBlock(e)
  {
    var blocks := Blocks(src);
    assert Blocks(src + [e]) == blocks + [EntryBlock(e)];
    JoinSnoc(blocks, EntryBlock(e), "\n\n");
  }

  /** A single update renders as its own block. */
  lemma FormatSingle(e: PackageUpdate)
    ensures FormatPackageUpdates([e]) == EntryBlock(e)
  {
  }

  /**
    `run_draft_issues`: an empty list gives `{}` without building a crew
    (`None` here); otherwise the crew is given the formatted updates. What
    the crew returns is not modelled.
   */
  function RunDraftIssues(updates: seq<PackageUpdate>): (r: Option<string>)
    ensures r.None? <==> |updates| == 0
    ensures r.Some? ==> r.value == FormatPackageUpdates(updates) && r.value != ""
  {
    if |updates| == 0 then None else Some(FormatPackageUpdates(updates))
  }
}
