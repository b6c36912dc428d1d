/** The copy-selected-files command end to end: gather the selection, resolve
    it to targets, read and count them, and produce the clipboard text, the
    total and the oversize flag, or the reason the command stops. */
module CopyCommand {
  import opened Outcomes
  import opened PathLabels
  import opened Snapshot
  import opened Selection
  import opened Tokens
  import opened Assembly

  /** The three ways the command stops with an error and writes nothing. */
  datatype Failure = NoSelection | NothingToCopy | AllReadsFailed

  /** The command's arguments and the editor's active document. */
  datatype Invocation = Invocation(uri: Option<string>, uris: Option<seq<string>>, activeDocument: Option<string>)

  /** What the command consults besides its arguments: the file system, the
      workspace-folder lookup, the tokenizer, the locale's digit grouping,
      the relative-path preference and the summary settings. */
  datatype Host = Host(
    fs: FileSystem,
    rootOf: RootLookup,
    encoder: Encoder,
    grouping: nat -> string,
    relative: bool,
    policy: Policy)

  /** A successful run: the clipboard text, the token total, whether the
      oversize warning fires, and the targets that drew a read warning. */
  datatype Copied = Copied(text: string, totalTokens: nat, oversize: bool, unreadable: seq<string>)

  function Labeller(host: Host): string -> string {
    p => FormatPath(p, host.relative, host.rootOf)
  }

  function Counter(host: Host): string -> nat {
    text => CountTokens(host.encoder, text)
  }

  function RawSelection(inv: Invocation): seq<string> {
    Gather(inv.uri, inv.uris, inv.activeDocument)
  }

  function RecordsFor(inv: Invocation, host: Host): seq<FileRecord> {
    Records(host.fs, Targets(host.fs, RawSelection(inv)), Labeller(host), Counter(host))
  }

  /** The command's outcome. */
  function Copy(inv: Invocation, host: Host): (res: Result<Copied, Failure>)
    ensures res == Err(NoSelection) <==> RawSelection(inv) == []
    ensures res == Err(NothingToCopy) <==> RawSelection(inv) != [] && Targets(host.fs, RawSelection(inv)) == []
    ensures res == Err(AllReadsFailed) <==>
      var targets := Targets(host.fs, RawSelection(inv));
      && RawSelection(inv) != [] && targets != []
      && forall i :: 0 <= i < |targets| ==> ReadFile(host.fs, targets[i]).None?
    ensures res.Ok? ==> (res.value.oversize <==> res.value.totalTokens > OversizeLimit)
    ensures res.Ok? ==> (|RecordsFor(inv, host)| > 0
      && |RecordsFor(inv, host)| + |res.value.unreadable| == |Targets(host.fs, RawSelection(inv))|)
  {
    var raw := RawSelection(inv);
    var targets := Targets(host.fs, raw);
    var records := Records(host.fs, targets, Labeller(host), Counter(host));
    NoRecordsIffAllReadsFail(host.fs, targets, Labeller(host), Counter(host));
    RecordsAndFailuresPartition(host.fs, targets, Labeller(host), Counter(host));
    if raw == [] then Err(NoSelection)
    else if targets == [] then Err(NothingToCopy)
    else if records == [] then Err(AllReadsFailed)
    else
      var total := TotalTokens(records);
      var text := Render(records, WantSummary(host.policy, total), host.grouping);
      Ok(Copied(text, total, Oversize(total), Unreadable(host.fs, targets)))
  }

  /** The successful outcome, spelled out from the records. */
  lemma CopySucceeds(inv: Invocation, host: Host)
    requires RecordsFor(inv, host) != []
    ensures var records := RecordsFor(inv, host);
            var total := TotalTokens(records);
            Copy(inv, host) == Ok(Copied(Render(records, WantSummary(host.policy, total), host.grouping),
                                         total, total > OversizeLimit,
                                         Unreadable(host.fs, Targets(host.fs, RawSelection(inv)))))
  {
  }

  /** The command handler, step by step. */
  method CopySelectedFiles(inv: Invocation, host: Host) returns (res: Result<Copied, Failure>)
    ensures res == Copy(inv, host)
  {
    var raw := Gather(inv.uri, inv.uris, inv.activeDocument);
    assert raw == RawSelection(inv);
    if |raw| == 0 {
      return Err(NoSelection);
    }
    var targets := ResolveTargets(host.fs, raw);
    if |targets| == 0 {
      return Err(NothingToCopy);
    }
    var records, total, unreadable := BuildRecords(host.fs, targets, Labeller(host), Counter(host));
    if |records| == 0 {
      return Err(AllReadsFailed);
    }
    var want := host.policy.mode == Always || (host.policy.mode == Auto && total > host.policy.threshold);
    assert want == WantSummary(host.policy, total);
    var text := Render(records, want, host.grouping);
    res := Ok(Copied(text, total, total > OversizeLimit, unreadable));
  }

  /** Every readable target's text reaches the clipboard verbatim. */
  lemma CopiedHoldsEveryReadableTarget(inv: Invocation, host: Host, t: string)
    requires t in Targets(host.fs, RawSelection(inv))
    requires ReadFile(host.fs, t).Some?
    ensures Copy(inv, host).Ok?
    ensures exists at :: OccursAt(Copy(inv, host).value.text, at, ReadFile(host.fs, t).value)
  {
    var targets := Targets(host.fs, RawSelection(inv));
    var records := RecordsFor(inv, host);
    ReadableTargetHasRecord(host.fs, targets, Labeller(host), Counter(host), t);
    var k :| 0 <= k < |records| && records[k].body == ReadFile(host.fs, t).value;
    assert RawSelection(inv) != [] && targets != [] && records != [];
    var want := WantSummary(host.policy, TotalTokens(records));
    BodyVerbatim(records, want, host.grouping, k);
  }

  /** The header appears exactly when the summary policy asks for it. */
  lemma CopiedHeaderFollowsPolicy(inv: Invocation, host: Host)
    ensures Copy(inv, host).Ok? ==>
            var copied := Copy(inv, host).value;
            var records := RecordsFor(inv, host);
            && copied.totalTokens == TotalTokens(records)
            && (WantSummary(host.policy, copied.totalTokens) ==> OccursAt(copied.text, 0, SummaryTitle))
            && (!WantSummary(host.policy, copied.totalTokens) ==> OccursAt(copied.text, 0, records[0].path + BlockOpen))
  {
    var records := RecordsFor(inv, host);
    if Copy(inv, host).Err? {
    } else if WantSummary(host.policy, TotalTokens(records)) {
      HeaderListsRecord(records, host.grouping, 0);
    } else {
      NoHeaderStartsWithFirstFile(records, host.grouping);
    }
  }
}
