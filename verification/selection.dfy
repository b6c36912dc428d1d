/** From the command's arguments to the ordered list of files to copy:
    gathering the raw selection, expanding folders one level under the
    shadowing rule, and resolving the raw list into targets. */
module Selection {
  import opened Outcomes
  import opened Paths
  import opened Snapshot

  /** No element occurs twice. */
  predicate Distinct<T(==)>(s: seq<T>) {
    forall i, j :: 0 <= i < j < |s| ==> s[i] != s[j]
  }

  /* ───── gathering the selection ───── */

  /** The raw selection: the explorer's multi-selection when it is non-empty,
      else the clicked item, else the active editor's document, else nothing. */
  function Gather(uri: Option<string>, uris: Option<seq<string>>, activeDocument: Option<string>): (raw: seq<string>)
    ensures uris.Some? && uris.value != [] ==> raw == uris.value
    ensures (uris.None? || uris.value == []) && uri.Some? ==> raw == [uri.value]
    ensures (uris.None? || uris.value == []) && uri.None? && activeDocument.Some? ==> raw == [activeDocument.value]
    ensures raw == [] <==> (uris.None? || uris.value == []) && uri.None? && activeDocument.None?
  {
    if uris.Some? && |uris.value| > 0 then uris.value
    else if uri.Some? then [uri.value]
    else if activeDocument.Some? then [activeDocument.value]
    else []
  }

  /** The selected paths as a set, which the shadowing test consults. */
  function SelectedSet(raw: seq<string>): (selected: set<string>)
    ensures forall p :: p in selected <==> p in raw
  {
    set p | p in raw
  }

  /* ───── folder expansion ───── */

  /** The shadowing test as the code writes it: some other selected path
      starts with the folder followed by a separator. */
  predicate ShadowedAsWritten(folder: string, selected: set<string>) {
    exists p :: p in selected && p != folder && Below(p, folder)
  }

  /** A folder is shadowed when some other selected path lies inside it. This
      is the test the model uses; it is the code's test for every folder but
      the file-system root (`ShadowTestsAgreeOffRoot`). */
  predicate Shadowed(folder: string, selected: set<string>) {
    exists p :: p in selected && p != folder && Inside(p, folder)
  }

  /** Off the root, the model's test is exactly the code's. */
  lemma ShadowTestsAgreeOffRoot(folder: string, selected: set<string>)
    requires !EndsWithSep(folder)
    ensures Shadowed(folder, selected) <==> ShadowedAsWritten(folder, selected)
  {
    assert DirPrefix(folder) == folder + [Sep];
  }

  /** At a folder ending in the separator, the code's test needs a selected
      path with two separators in a row, so over ordinary paths it never
      fires: the file-system root is never shadowed as written. */
  lemma RootNeverShadowedAsWritten(folder: string, selected: set<string>)
    requires EndsWithSep(folder)
    requires forall p :: p in selected ==> NoDoubleSep(p)
    ensures !ShadowedAsWritten(folder, selected)
  {
    forall p | p in selected && |p| > |folder|
      ensures !Below(p, folder)
    {
      var cut := p[..|folder| + 1];
      assert cut[|folder| - 1] != Sep || cut[|folder|] != Sep;
      assert (folder + [Sep])[|folder| - 1] == Sep && (folder + [Sep])[|folder|] == Sep;
    }
  }

  /** A folder is shadowed exactly by a selected path strictly inside it, and
      a folder selected on its own is not shadowed. */
  lemma ShadowedByDescendantOnly(folder: string, selected: set<string>)
    ensures Shadowed(folder, selected) <==> exists p :: p in selected && Inside(p, folder) && |p| > |folder|
    ensures Shadowed(folder, selected) <==> Shadowed(folder, selected - {folder})
    ensures !Shadowed(folder, {folder})
  {
  }

  /** The regular files of a listing, joined to the folder, in listing order. */
  function ChildFiles(folder: string, listing: seq<DirEntry>): (paths: seq<string>)
    ensures |paths| <= |listing|
    ensures forall t :: t in paths <==>
      exists i :: 0 <= i < |listing| && listing[i].kind == RegularFile && t == Join(folder, listing[i].name)
  {
    if listing == [] then []
    else
      var rest := ChildFiles(folder, listing[1..]);
      assert forall i :: 0 < i < |listing| ==> listing[i] == listing[1..][i - 1];
      (if listing[0].kind == RegularFile then [Join(folder, listing[0].name)] else []) + rest
  }

  /** Expansion keeps listing order: the files of a split listing are the
      files of the first part followed by those of the second. */
  lemma {:induction false} ChildFilesSplice(folder: string, a: seq<DirEntry>, b: seq<DirEntry>)
    ensures ChildFiles(folder, a + b) == ChildFiles(folder, a) + ChildFiles(folder, b)
  {
    if a == [] {
      assert a + b == b;
    } else {
      var head := if a[0].kind == RegularFile then [Join(folder, a[0].name)] else [];
      assert (a + b)[0] == a[0];
      assert (a + b)[1..] == a[1..] + b;
      assert ChildFiles(folder, a + b) == head + ChildFiles(folder, a[1..] + b);
      assert ChildFiles(folder, a) == head + ChildFiles(folder, a[1..]);
      ChildFilesSplice(folder, a[1..], b);
    }
  }

  /** `expandFolder`: nothing for a shadowed folder or an unreadable one,
      otherwise its direct child files. */
  function ExpandFolder(fs: FileSystem, folder: string, selected: set<string>): (paths: seq<string>)
    ensures forall t :: t in paths ==> Inside(t, folder)
    ensures forall t :: t in paths <==>
      && !Shadowed(folder, selected)
      && ReadDir(fs, folder).Some?
      && exists i :: 0 <= i < |ReadDir(fs, folder).value|
           && ReadDir(fs, folder).value[i].kind == RegularFile
           && t == Join(folder, ReadDir(fs, folder).value[i].name)
  {
    if Shadowed(folder, selected) then []
    else match ReadDir(fs, folder)
      case None => []
      case Some(listing) => ChildFiles(folder, listing)
  }

  /** `expandFolder` with the code's own shadowing test: nothing when that
      test fires, otherwise every child file. It agrees with `ExpandFolder` on
      every folder but the file-system root. */
  function ExpandFolderAsWritten(fs: FileSystem, folder: string, selected: set<string>): (paths: seq<string>)
    ensures ShadowedAsWritten(folder, selected) ==> paths == []
    ensures !ShadowedAsWritten(folder, selected) ==> paths == ExpandFolder(fs, folder, {})
    ensures !EndsWithSep(folder) ==> paths == ExpandFolder(fs, folder, selected)
  {
    if ShadowedAsWritten(folder, selected) then []
    else match ReadDir(fs, folder)
      case None => []
      case Some(listing) => ChildFiles(folder, listing)
  }

  /* ───── target resolution ───── */

  /** What one raw path adds to the targets: itself when it is a file, its
      expansion when it is a folder, nothing when `stat` fails or finds
      something else. */
  function Contribution(fs: FileSystem, u: string, selected: set<string>): (paths: seq<string>)
    ensures u in fs && fs[u].File? ==> paths == [u]
    ensures paths != [] ==> u in fs && !fs[u].Other?
    ensures forall t :: t in paths ==> t == u || Inside(t, u)
  {
    if u !in fs then []
    else match fs[u]
      case File(_) => [u]
      case Dir(_) => ExpandFolder(fs, u, selected)
      case Other => []
  }

  /** The contributions of `items`, in order. */
  function Resolve(fs: FileSystem, items: seq<string>, selected: set<string>): seq<string> {
    if items == [] then []
    else Resolve(fs, items[..|items| - 1], selected) + Contribution(fs, items[|items| - 1], selected)
  }

  /** A path is resolved exactly when some item contributes it. */
  lemma {:induction false} ResolveMembers(fs: FileSystem, items: seq<string>, selected: set<string>)
    ensures forall t :: t in Resolve(fs, items, selected) <==>
      exists i :: 0 <= i < |items| && t in Contribution(fs, items[i], selected)
  {
    if items != [] {
      var n := |items| - 1;
      var init := items[..n];
      var head := Resolve(fs, init, selected);
      var last := Contribution(fs, items[n], selected);
      ResolveMembers(fs, init, selected);
      assert Resolve(fs, items, selected) == head + last;
      assert forall i :: 0 <= i < n ==> init[i] == items[i];
      forall t | t in head + last
        ensures exists i :: 0 <= i < |items| && t in Contribution(fs, items[i], selected)
      {
        if t in head {
          var i :| 0 <= i < n && t in Contribution(fs, init[i], selected);
          assert t in Contribution(fs, items[i], selected);
        }
      }
    }
  }

  /** The files the command copies, in the order it copies them. */
  function Targets(fs: FileSystem, raw: seq<string>): (targets: seq<string>)
    ensures raw == [] ==> targets == []
    ensures forall t :: t in targets ==> exists i :: 0 <= i < |raw| && (t == raw[i] || Inside(t, raw[i]))
  {
    var selected := SelectedSet(raw);
    var targets := Resolve(fs, raw, selected);
    ResolveMembers(fs, raw, selected);
    assert forall t :: t in targets ==> exists i :: 0 <= i < |raw| && (t == raw[i] || Inside(t, raw[i])) by {
      forall t | t in targets
        ensures exists i :: 0 <= i < |raw| && (t == raw[i] || Inside(t, raw[i]))
      {
        var i :| 0 <= i < |raw| && t in Contribution(fs, raw[i], selected);
        assert t == raw[i] || Inside(t, raw[i]);
      }
    }
    targets
  }

  /** The resolution loop of the copy command. */
  method ResolveTargets(fs: FileSystem, raw: seq<string>) returns (targets: seq<string>)
    ensures targets == Targets(fs, raw)
  {
    var selected := SelectedSet(raw);
    targets := [];
    var k := 0;
    while k < |raw|
      invariant 0 <= k <= |raw|
      invariant targets == Resolve(fs, raw[..k], selected)
    {
      var u := raw[k];
      if u in fs {
        match fs[u]
        case File(_) =>
          targets := targets + [u];
        case Dir(_) =>
          targets := targets + ExpandFolder(fs, u, selected);
        case Other =>
      }
      assert raw[..k + 1][..k] == raw[..k];
      k := k + 1;
    }
    assert raw[..k] == raw;
  }

  /** Targets keep raw order: each raw path's contribution is spliced in at
      that path's position. */
  lemma {:induction false} ResolveSplice(fs: FileSystem, a: seq<string>, b: seq<string>, selected: set<string>)
    ensures Resolve(fs, a + b, selected) == Resolve(fs, a, selected) + Resolve(fs, b, selected)
  {
    if b == [] {
      assert a + b == a;
    } else {
      var b' := b[..|b| - 1];
      var last := Contribution(fs, b[|b| - 1], selected);
      assert (a + b)[..|a + b| - 1] == a + b';
      assert (a + b)[|a + b| - 1] == b[|b| - 1];
      assert Resolve(fs, a + b, selected) == Resolve(fs, a + b', selected) + last;
      assert Resolve(fs, b, selected) == Resolve(fs, b', selected) + last;
      ResolveSplice(fs, a, b', selected);
    }
  }

  /** A raw path whose `stat` fails, or that is neither file nor folder,
      contributes nothing: the targets are those of the selection without it. */
  lemma DroppedPathContributesNothing(fs: FileSystem, a: seq<string>, u: string, b: seq<string>, selected: set<string>)
    requires u !in fs || fs[u].Other?
    ensures Resolve(fs, a + [u] + b, selected) == Resolve(fs, a + b, selected)
  {
    ResolveOfOne(fs, u, selected);
    assert Contribution(fs, u, selected) == [];
    ResolveSplice(fs, a, [u], selected);
    assert Resolve(fs, a + [u], selected) == Resolve(fs, a, selected);
    ResolveSplice(fs, a + [u], b, selected);
    ResolveSplice(fs, a, b, selected);
  }

  /** One raw path resolves to its contribution. */
  lemma ResolveOfOne(fs: FileSystem, u: string, selected: set<string>)
    ensures Resolve(fs, [u], selected) == Contribution(fs, u, selected)
  {
    assert [u][..0] == [];
  }

  /** A selection of files only resolves to itself. */
  lemma {:induction false} FilesPassThrough(fs: FileSystem, items: seq<string>, selected: set<string>)
    requires forall i :: 0 <= i < |items| ==> items[i] in fs && fs[items[i]].File?
    ensures Resolve(fs, items, selected) == items
  {
    if items != [] {
      var init := items[..|items| - 1];
      FilesPassThrough(fs, init, selected);
      assert init + [items[|items| - 1]] == items;
    }
  }

  /** A target is either a selected file or a direct child file of a selected
      folder that is readable and not shadowed. */
  lemma TargetOrigin(fs: FileSystem, raw: seq<string>, t: string)
    ensures t in Targets(fs, raw) <==>
      || (t in raw && t in fs && fs[t].File?)
      || (exists d :: d in raw && d in fs && fs[d].Dir? && t in ExpandFolder(fs, d, SelectedSet(raw)))
  {
    var selected := SelectedSet(raw);
    ResolveMembers(fs, raw, selected);
    if t in Targets(fs, raw) {
      var i :| 0 <= i < |raw| && t in Contribution(fs, raw[i], selected);
      if fs[raw[i]].Dir? {
        assert raw[i] in raw;
      }
    }
    if t in raw && t in fs && fs[t].File? {
      var i :| 0 <= i < |raw| && raw[i] == t;
      assert t in Contribution(fs, raw[i], selected);
    }
    if exists d :: d in raw && d in fs && fs[d].Dir? && t in ExpandFolder(fs, d, selected) {
      var d :| d in raw && d in fs && fs[d].Dir? && t in ExpandFolder(fs, d, selected);
      var i :| 0 <= i < |raw| && raw[i] == d;
      assert t in Contribution(fs, raw[i], selected);
    }
  }

  /** The code has no deduplication step: a file selected twice is copied twice. */
  lemma RepeatedFileIsRepeated(fs: FileSystem, f: string)
    requires f in fs && fs[f].File?
    ensures Targets(fs, [f, f]) == [f, f]
  {
    FilesPassThrough(fs, [f, f], SelectedSet([f, f]));
  }

  /* ───── no target twice ───── */

  lemma DistinctConcat<T>(a: seq<T>, b: seq<T>)
    requires Distinct(a) && Distinct(b)
    requires forall x :: x in a ==> x !in b
    ensures Distinct(a + b)
  {
    forall i, j | 0 <= i < j < |a + b|
      ensures (a + b)[i] != (a + b)[j]
    {
      if i < |a| && |a| <= j {
        assert (a + b)[i] in a;
        assert (a + b)[j] in b;
      }
    }
  }

  /** A folder's expansion names each child at most once. */
  lemma {:induction false} ChildFilesDistinct(folder: string, listing: seq<DirEntry>)
    requires ListingWellFormed(listing)
    ensures Distinct(ChildFiles(folder, listing))
  {
    if listing != [] {
      var rest := listing[1..];
      assert ListingWellFormed(rest) by {
        forall i, j | 0 <= i < j < |rest| ensures rest[i].name != rest[j].name {
          assert rest[i] == listing[i + 1] && rest[j] == listing[j + 1];
        }
      }
      ChildFilesDistinct(folder, rest);
      if listing[0].kind == RegularFile {
        var first := Join(folder, listing[0].name);
        forall t | t in ChildFiles(folder, rest) ensures t != first {
          var i :| 0 <= i < |rest| && rest[i].kind == RegularFile && t == Join(folder, rest[i].name);
          assert rest[i] == listing[i + 1];
        }
        DistinctConcat([first], ChildFiles(folder, rest));
      }
    }
  }

  /** A single raw path never contributes the same target twice. */
  lemma ContributionDistinct(fs: FileSystem, u: string, selected: set<string>)
    requires WellFormed(fs)
    ensures Distinct(Contribution(fs, u, selected))
  {
    if u in fs && fs[u].Dir? && !Shadowed(u, selected) && ReadDir(fs, u).Some? {
      ChildFilesDistinct(u, ReadDir(fs, u).value);
    }
  }

  /** Two different selected paths never contribute a common target: a file
      selected inside a folder shadows that folder, and plain entry names make
      children of different folders different. */
  lemma ContributionsDisjoint(fs: FileSystem, u: string, v: string, selected: set<string>)
    requires WellFormed(fs)
    requires u != v && u in selected && v in selected
    ensures forall t :: t in Contribution(fs, u, selected) ==> t !in Contribution(fs, v, selected)
  {
    forall t | t in Contribution(fs, u, selected)
      ensures t !in Contribution(fs, v, selected)
    {
      if u in fs && v in fs && fs[u].Dir? && fs[v].Dir? && t in ExpandFolder(fs, u, selected)
         && !Shadowed(v, selected) && ReadDir(fs, v).Some?
      {
        var lu := ReadDir(fs, u).value;
        var lv := ReadDir(fs, v).value;
        var i :| 0 <= i < |lu| && lu[i].kind == RegularFile && t == Join(u, lu[i].name);
        if DirPrefix(u) == DirPrefix(v) {
          SamePrefix(u, v);
        } else {
          forall j | 0 <= j < |lv| ensures t != Join(v, lv[j].name) {
            JoinsDiffer(u, lu[i].name, v, lv[j].name);
          }
        }
      }
    }
  }

  lemma {:induction false} ResolveDistinct(fs: FileSystem, items: seq<string>, selected: set<string>)
    requires WellFormed(fs)
    requires Distinct(items)
    requires forall i :: 0 <= i < |items| ==> items[i] in selected
    ensures Distinct(Resolve(fs, items, selected))
  {
    if items != [] {
      var n := |items| - 1;
      var init := items[..n];
      var u := items[n];
      ResolveDistinct(fs, init, selected);
      ContributionDistinct(fs, u, selected);
      ResolveMembers(fs, init, selected);
      forall t | t in Resolve(fs, init, selected)
        ensures t !in Contribution(fs, u, selected)
      {
        var i :| 0 <= i < |init| && t in Contribution(fs, init[i], selected);
        ContributionsDisjoint(fs, init[i], u, selected);
      }
      DistinctConcat(Resolve(fs, init, selected), Contribution(fs, u, selected));
    }
  }

  /** When the raw paths are distinct and every listing is well formed, no
      file is copied twice, although the code never deduplicates. */
  lemma TargetsDistinct(fs: FileSystem, raw: seq<string>)
    requires WellFormed(fs)
    requires Distinct(raw)
    ensures Distinct(Targets(fs, raw))
  {
    ResolveDistinct(fs, raw, SelectedSet(raw));
  }
}
