/** Display labels for file paths (`formatPath`) and the relative-path toggle
    that chooses between a workspace-relative label and the bare basename. */
module PathLabels {
  import opened Outcomes
  import opened Paths

  /** `root` contains `p`: `p` is the root itself or lies below it. */
  predicate Contains(root: string, p: string) {
    p == root || Inside(p, root)
  }

  /** The host's workspace-folder lookup: the root folder containing a path, or
      nothing when the path is outside every workspace folder. The type records
      the host's promise that a reported root does contain the path. */
  type RootLookup = f: string -> Option<string> | forall p :: f(p).Some? ==> Contains(f(p).value, p)
    witness (p: string) => None

  /** `path.relative(root, fullPath)` for a path the root contains. */
  function RelativeTo(root: string, fullPath: string): (rel: string)
    requires Contains(root, fullPath)
    ensures fullPath == root ==> rel == []
    ensures fullPath != root ==> DirPrefix(root) + rel == fullPath
  {
    if fullPath == root then [] else fullPath[|DirPrefix(root)|..]
  }

  /** `formatPath`: with relative mode off, or for a path outside every
      workspace folder, the basename; otherwise the path relative to its root. */
  function FormatPath(fullPath: string, relative: bool, rootOf: RootLookup): (shown: string)
    ensures !relative || rootOf(fullPath).None? ==> shown == Basename(fullPath)
    ensures relative && rootOf(fullPath).Some? && fullPath != rootOf(fullPath).value
            ==> DirPrefix(rootOf(fullPath).value) + shown == fullPath
    ensures relative && rootOf(fullPath) == Some(fullPath) ==> shown == []
  {
    if !relative then Basename(fullPath)
    else match rootOf(fullPath)
      case None => Basename(fullPath)
      case Some(root) => RelativeTo(root, fullPath)
  }

  /** With relative mode off a label never contains a separator. */
  lemma BasenameLabelHasNoSeparator(fullPath: string, rootOf: RootLookup)
    ensures Sep !in FormatPath(fullPath, false, rootOf)
  {
  }

  /** A workspace-relative label is strictly shorter than the absolute path,
      so it never equals it. */
  lemma RelativeLabelIsShorter(fullPath: string, rootOf: RootLookup)
    requires rootOf(fullPath).Some?
    ensures |FormatPath(fullPath, true, rootOf)| < |fullPath| || fullPath == []
    ensures FormatPath(fullPath, true, rootOf) != fullPath || fullPath == []
  {
  }

  /** A workspace-relative label of an ordinary path does not start with a
      separator: the root's prefix, separator included, is cut off whole. */
  lemma RelativeLabelIsNotAbsolute(fullPath: string, rootOf: RootLookup)
    requires rootOf(fullPath).Some?
    requires NoDoubleSep(fullPath)
    ensures var shown := FormatPath(fullPath, true, rootOf);
            shown == [] || shown[0] != Sep
  {
  }

  /** With relative mode off, a file found by expanding a folder is labelled
      with its directory-entry name. */
  lemma LabelOfChild(dir: string, name: string, rootOf: RootLookup)
    requires Sep !in name
    ensures FormatPath(Join(dir, name), false, rootOf) == name
  {
    BasenameOfJoin(dir, name);
  }

  /** A file lying inside its workspace root is labelled with exactly the part
      of its path after the root's prefix. */
  lemma LabelBelowRoot(root: string, rest: string, rootOf: RootLookup)
    requires rootOf(DirPrefix(root) + rest) == Some(root)
    ensures FormatPath(DirPrefix(root) + rest, true, rootOf) == rest
  {
    var p := DirPrefix(root) + rest;
    if p == root {
      assert |DirPrefix(root)| == |root| && rest == [];
    } else {
      assert p[|DirPrefix(root)|..] == rest;
    }
  }

  /* ───── the relative-path toggle ───── */

  /** Relative mode is on until the user first toggles it. */
  const InitialRelative: bool := true

  /** The toggle command flips the persisted preference. */
  function Toggle(relative: bool): (flipped: bool)
    ensures flipped != relative
  {
    !relative
  }

  /** The preference after `toggles` uses of the toggle command. */
  function RelativeAfter(toggles: nat): bool {
    if toggles == 0 then InitialRelative else Toggle(RelativeAfter(toggles - 1))
  }

  /** Toggling twice restores the preference. */
  lemma ToggleTwice(relative: bool)
    ensures Toggle(Toggle(relative)) == relative
  {
  }

  /** Relative mode is on exactly after an even number of toggles. */
  lemma {:induction false} RelativeAfterParity(toggles: nat)
    ensures RelativeAfter(toggles) <==> toggles % 2 == 0
  {
    if toggles > 0 {
      RelativeAfterParity(toggles - 1);
    }
  }
}
