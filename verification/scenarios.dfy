/** Worked selections over a small snapshot: a workspace folder `/w` holding
    three text files and a subfolder `sub` with one more file. */
module Scenarios {
  import opened Outcomes
  import opened Paths
  import opened PathLabels
  import opened Snapshot
  import opened Selection
  import opened Tokens
  import opened Assembly
  import opened CopyCommand

  const W: string := "/w"
  const A: string := Join(W, "a.txt")
  const B: string := Join(W, "b.txt")
  const C: string := Join(W, "c.txt")
  const Sub: string := Join(W, "sub")
  const X: string := Join(Sub, "x.txt")

  const WListing: seq<DirEntry> := [
    DirEntry("a.txt", RegularFile),
    DirEntry("sub", Directory),
    DirEntry("b.txt", RegularFile),
    DirEntry("c.txt", RegularFile)]

  function Workspace(): FileSystem {
    map[W := Dir(Some(WListing)),
        A := File(Some("alpha")),
        B := File(Some("beta")),
        C := File(None),
        Sub := Dir(Some([DirEntry("x.txt", RegularFile)])),
        X := File(Some("x"))]
  }

  lemma WorkspaceReadDir()
    ensures ReadDir(Workspace(), W) == Some(WListing)
  {
  }

  lemma ListingFiles()
    ensures ChildFiles(W, WListing) == [A, B, C]
  {
    assert WListing[1..][1..][1..][1..] == [];
    assert ChildFiles(W, WListing[1..][1..][1..]) == [C];
    assert ChildFiles(W, WListing[1..][1..]) == [B, C];
    assert ChildFiles(W, WListing[1..]) == [B, C];
  }

  /** A folder selected on its own contributes its whole expansion. */
  lemma FolderAloneIsItsExpansion(fs: FileSystem, d: string)
    requires d in fs && fs[d].Dir?
    ensures Targets(fs, [d]) == ExpandFolder(fs, d, {d})
  {
    assert SelectedSet([d]) == {d};
    assert [d][..0] == [];
    assert Resolve(fs, [d], {d}) == Resolve(fs, [], {d}) + Contribution(fs, d, {d});
  }

  lemma WorkspaceExpands()
    ensures ExpandFolder(Workspace(), W, {W}) == [A, B, C]
  {
    ShadowedByDescendantOnly(W, {W});
    WorkspaceReadDir();
    ListingFiles();
  }

  /** A folder selected on its own expands to its regular files in listing
      order, skipping the subfolder; the unreadable file is still a target. */
  lemma FolderAloneExpands()
    ensures Targets(Workspace(), [W]) == [A, B, C]
  {
    WorkspaceExpands();
    FolderAloneIsItsExpansion(Workspace(), W);
  }

  /** A folder followed by a file inside it resolves to the file alone. */
  lemma FolderThenInsideFile(fs: FileSystem, d: string, f: string)
    requires d in fs && fs[d].Dir? && f in fs && fs[f].File?
    requires f != d && Inside(f, d)
    ensures Targets(fs, [d, f]) == [f]
  {
    var selected := SelectedSet([d, f]);
    assert f in selected;
    assert Contribution(fs, d, selected) == [];
    assert [d][..0] == [] && [f][..0] == [];
    assert Resolve(fs, [d], selected) == [];
    assert Resolve(fs, [f], selected) == [f];
    ResolveSplice(fs, [d], [f], selected);
    assert [d] + [f] == [d, f];
  }

  lemma WorkspaceNodes()
    ensures W in Workspace() && Workspace()[W].Dir?
    ensures A in Workspace() && Workspace()[A] == File(Some("alpha"))
    ensures B in Workspace() && Workspace()[B] == File(Some("beta"))
    ensures C in Workspace() && Workspace()[C] == File(None)
    ensures X in Workspace() && Workspace()[X].File?
  {
  }

  /** Selecting a file of the folder alongside it shadows the whole folder:
      only the explicitly selected file remains. */
  lemma ExplicitChildShadowsFolder()
    ensures Targets(Workspace(), [W, A]) == [A]
  {
    WorkspaceNodes();
    assert A != W && Inside(A, W);
    FolderThenInsideFile(Workspace(), W, A);
  }

  /** A selected grandchild shadows the folder too: none of the folder's own
      files are copied, though the grandchild does not shadow any of them. */
  lemma GrandchildShadowsFolder()
    ensures Targets(Workspace(), [W, X]) == [X]
  {
    WorkspaceNodes();
    assert X != W && Inside(X, W);
    FolderThenInsideFile(Workspace(), W, X);
  }

  /* ───── the file-system root as the selected folder ───── */

  const Root: string := "/"
  const RootFile: string := Join(Root, "x.txt")

  /** A disk whose root holds one file. */
  function RootDisk(): FileSystem {
    map[Root := Dir(Some([DirEntry("x.txt", RegularFile)])), RootFile := File(Some("x"))]
  }

  /** `path.join` adds no second separator after the root. */
  lemma RootFileIsAbsolute()
    ensures RootFile == "/x.txt"
  {
  }

  lemma RootDiskExpands(selected: set<string>)
    requires !ShadowedAsWritten(Root, selected)
    ensures ExpandFolderAsWritten(RootDisk(), Root, selected) == [RootFile]
  {
    assert ReadDir(RootDisk(), Root) == Some([DirEntry("x.txt", RegularFile)]);
    assert [DirEntry("x.txt", RegularFile)][1..] == [];
  }

  /** With the code's shadowing test, selecting the root together with a file
      in it copies that file twice: `/x.txt` does not start with `//`, so the
      root is not shadowed and its expansion repeats the selected file. The
      code's loop contributes the root's expansion, then the file itself. */
  lemma RootFolderAsWrittenRepeatsChild()
    ensures var selected := SelectedSet([Root, RootFile]);
            && !ShadowedAsWritten(Root, selected)
            && ExpandFolderAsWritten(RootDisk(), Root, selected) + Contribution(RootDisk(), RootFile, selected)
               == [RootFile, RootFile]
  {
    var selected := SelectedSet([Root, RootFile]);
    assert selected == {Root, RootFile};
    RootFileIsAbsolute();
    assert !Below(RootFile, Root) by {
      assert RootFile[1] == 'x' && (Root + [Sep])[1] == Sep;
      assert RootFile[..2][1] != (Root + [Sep])[1];
    }
    RootDiskExpands(selected);
  }

  /** With the shadowing test the model uses, the same selection copies the
      file once: the root is shadowed by the file inside it. */
  lemma RootFolderShadowedByChild()
    ensures Targets(RootDisk(), [Root, RootFile]) == [RootFile]
  {
    RootFileIsAbsolute();
    assert RootFile != Root && Inside(RootFile, Root);
    FolderThenInsideFile(RootDisk(), Root, RootFile);
  }

  /** A file selected on its own is the only target. */
  lemma FileAlone(fs: FileSystem, f: string)
    requires f in fs && fs[f].File?
    ensures Targets(fs, [f]) == [f]
  {
    FilesPassThrough(fs, [f], SelectedSet([f]));
  }

  /** A selection whose only target cannot be read stops the command. */
  lemma UnreadableOnlyFails(host: Host)
    requires host.fs == Workspace()
    ensures Copy(Invocation(Some(C), None, None), host) == Err(AllReadsFailed)
  {
    var inv := Invocation(Some(C), None, None);
    assert RawSelection(inv) == [C];
    WorkspaceNodes();
    FileAlone(host.fs, C);
    assert ReadFile(host.fs, C).None?;
  }

  /** The host of the two-file scenario: no workspace roots, a tokenizer
      counting 10 tokens for `alpha` and 20 for anything else, summary off. */
  function TwoFileHost(grouping: nat -> string): Host {
    Host(Workspace(), (p: string) => None,
         (text: string) => if text == "alpha" then Some(10) else Some(20),
         grouping, false, Policy(Off, 0))
  }

  lemma TwoFileReads()
    ensures ReadFile(Workspace(), A) == Some("alpha")
    ensures ReadFile(Workspace(), B) == Some("beta")
  {
  }

  lemma TwoFileLabelsAndCounts(grouping: nat -> string)
    ensures Labeller(TwoFileHost(grouping))(A) == "a.txt"
    ensures Labeller(TwoFileHost(grouping))(B) == "b.txt"
    ensures Counter(TwoFileHost(grouping))("alpha") == 10
    ensures Counter(TwoFileHost(grouping))("beta") == 20
  {
    LabelOfChild(W, "a.txt", TwoFileHost(grouping).rootOf);
    LabelOfChild(W, "b.txt", TwoFileHost(grouping).rootOf);
  }

  /** Two readable targets give two records, in order. */
  lemma RecordsOfTwoReadable(fs: FileSystem, a: string, b: string, display: string -> string, count: string -> nat)
    requires ReadFile(fs, a).Some? && ReadFile(fs, b).Some?
    ensures var ca := ReadFile(fs, a).value;
            var cb := ReadFile(fs, b).value;
            Records(fs, [a, b], display, count)
            == [FileRecord(display(a), count(ca), ca), FileRecord(display(b), count(cb), cb)]
  {
    RecordsOfOne(fs, a, display, count);
    RecordsOfOne(fs, b, display, count);
    RecordsSplice(fs, [a], [b], display, count);
    assert [a] + [b] == [a, b];
  }

  lemma TwoFileRecords(grouping: nat -> string)
    ensures Records(Workspace(), [A, B], Labeller(TwoFileHost(grouping)), Counter(TwoFileHost(grouping)))
            == [FileRecord("a.txt", 10, "alpha"), FileRecord("b.txt", 20, "beta")]
  {
    TwoFileReads();
    TwoFileLabelsAndCounts(grouping);
    RecordsOfTwoReadable(Workspace(), A, B, Labeller(TwoFileHost(grouping)), Counter(TwoFileHost(grouping)));
  }

  lemma TwoFileTargets()
    ensures Targets(Workspace(), [A, B]) == [A, B]
    ensures Unreadable(Workspace(), [A, B]) == []
  {
    var fs := Workspace();
    TwoFileReads();
    FilesPassThrough(fs, [A, B], SelectedSet([A, B]));
    assert [A, B][..1] == [A];
    assert [A][..0] == [];
  }

  lemma TwoFileBlocks()
    ensures Blocks([FileRecord("a.txt", 10, "alpha"), FileRecord("b.txt", 20, "beta")])
            == Block(FileRecord("a.txt", 10, "alpha")) + Block(FileRecord("b.txt", 20, "beta"))
    ensures TotalTokens([FileRecord("a.txt", 10, "alpha"), FileRecord("b.txt", 20, "beta")]) == 30
  {
    var ra := FileRecord("a.txt", 10, "alpha");
    var rb := FileRecord("b.txt", 20, "beta");
    assert [ra, rb][..1] == [ra];
    assert [ra][..0] == [] && [rb][..0] == [];
    ConcatMapSplice([ra], [rb], Block);
    assert [ra] + [rb] == [ra, rb];
  }

  lemma TwoFileText(grouping: nat -> string)
    ensures Render([FileRecord("a.txt", 10, "alpha"), FileRecord("b.txt", 20, "beta")], false, grouping)
            == "a.txt:\n```\nalpha\n```\n\nb.txt:\n```\nbeta\n```\n\n"
    ensures TotalTokens([FileRecord("a.txt", 10, "alpha"), FileRecord("b.txt", 20, "beta")]) == 30
  {
    TwoFileBlocks();
    BlockA();
    BlockB();
  }

  lemma BlockA()
    ensures Block(FileRecord("a.txt", 10, "alpha")) == "a.txt:\n```\nalpha\n```\n\n"
  {
  }

  lemma BlockB()
    ensures Block(FileRecord("b.txt", 20, "beta")) == "b.txt:\n```\nbeta\n```\n\n"
  {
  }

  /** Selecting `a.txt` and `b.txt` in the explorer. */
  const TwoFileInvocation: Invocation := Invocation(None, Some([A, B]), None)

  lemma TwoFileRecordsFor(grouping: nat -> string)
    ensures RecordsFor(TwoFileInvocation, TwoFileHost(grouping))
            == [FileRecord("a.txt", 10, "alpha"), FileRecord("b.txt", 20, "beta")]
    ensures Unreadable(Workspace(), Targets(Workspace(), RawSelection(TwoFileInvocation))) == []
  {
    assert RawSelection(TwoFileInvocation) == [A, B];
    TwoFileTargets();
    TwoFileRecords(grouping);
  }

  /** Mode off, two files of 10 and 20 tokens: no header, both blocks in
      selection order, a total of 30 and no oversize warning. */
  lemma TwoFilesNoSummary(grouping: nat -> string)
    ensures Copy(TwoFileInvocation, TwoFileHost(grouping))
            == Ok(Copied("a.txt:\n```\nalpha\n```\n\nb.txt:\n```\nbeta\n```\n\n", 30, false, []))
  {
    TwoFileRecordsFor(grouping);
    TwoFileText(grouping);
    CopySucceeds(TwoFileInvocation, TwoFileHost(grouping));
  }

  /** The host of the large-file scenario: every text counts 60000 tokens and
      the summary settings are the defaults. */
  function LargeFileHost(grouping: nat -> string): Host {
    Host(Workspace(), (p: string) => None, (text: string) => Some(60000), grouping, true, DefaultPolicy)
  }

  /** Selecting `a.txt` under the large-file host gives one record of 60000 tokens. */
  lemma LargeRecords(grouping: nat -> string)
    ensures var host := LargeFileHost(grouping);
            var records := RecordsFor(Invocation(Some(A), None, None), host);
            && records == [FileRecord(Labeller(host)(A), 60000, "alpha")]
            && TotalTokens(records) == 60000
  {
    var host := LargeFileHost(grouping);
    assert RawSelection(Invocation(Some(A), None, None)) == [A];
    WorkspaceNodes();
    FileAlone(host.fs, A);
    RecordsOfOne(host.fs, A, Labeller(host), Counter(host));
    var rec := FileRecord(Labeller(host)(A), 60000, "alpha");
    assert [rec][..0] == [];
  }

  /** Under the default settings a 60000-token selection gets the summary
      header, but stays below the oversize limit. */
  lemma LargeSelectionGetsSummary(grouping: nat -> string)
    ensures Copy(Invocation(Some(A), None, None), LargeFileHost(grouping)).Ok?
    ensures var copied := Copy(Invocation(Some(A), None, None), LargeFileHost(grouping)).value;
            && copied.totalTokens == 60000
            && OccursAt(copied.text, 0, SummaryTitle)
            && !copied.oversize
  {
    var host := LargeFileHost(grouping);
    var inv := Invocation(Some(A), None, None);
    LargeRecords(grouping);
    assert RawSelection(inv) != [];
    assert RecordsFor(inv, host) != [];
    CopiedHeaderFollowsPolicy(inv, host);
  }
}
