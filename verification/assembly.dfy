/** Document assembly: reading each target, counting its tokens, deciding on
    the summary header, and rendering the text that goes to the clipboard. */
module Assembly {
  import opened Outcomes
  import opened Paths
  import opened Snapshot

  /** One successfully read target: its display label, token count and text. */
  datatype FileRecord = FileRecord(path: string, tokens: nat, body: string)

  /* ───── reading and counting ───── */

  /** The record for one target, or `None` when reading it fails. */
  function RecordOf(fs: FileSystem, t: string, display: string -> string, count: string -> nat): (rec: Option<FileRecord>)
    ensures rec.None? <==> ReadFile(fs, t).None?
    ensures rec.Some? ==> rec.value.body == ReadFile(fs, t).value
                          && rec.value.path == display(t)
                          && rec.value.tokens == count(rec.value.body)
  {
    match ReadFile(fs, t)
    case None => None
    case Some(content) => Some(FileRecord(display(t), count(content), content))
  }

  /** The records of the readable targets, in target order. */
  function Records(fs: FileSystem, targets: seq<string>, display: string -> string, count: string -> nat): (records: seq<FileRecord>)
    ensures |records| <= |targets|
    ensures forall r :: r in records ==>
      exists t :: t in targets && ReadFile(fs, t) == Some(r.body) && r.path == display(t) && r.tokens == count(r.body)
  {
    if targets == [] then []
    else
      var init := targets[..|targets| - 1];
      var last := targets[|targets| - 1];
      assert forall t :: t in init ==> t in targets;
      Records(fs, init, display, count)
        + match RecordOf(fs, last, display, count) case None => [] case Some(rec) => [rec]
  }

  /** The targets whose read failed (each draws a warning), in target order. */
  function Unreadable(fs: FileSystem, targets: seq<string>): (failed: seq<string>)
    ensures |failed| <= |targets|
    ensures forall t :: t in failed <==> t in targets && ReadFile(fs, t).None?
  {
    if targets == [] then []
    else
      var init := targets[..|targets| - 1];
      var last := targets[|targets| - 1];
      assert forall t :: t in targets <==> t in init || t == last by {
        assert targets == init + [last];
      }
      Unreadable(fs, init) + (if ReadFile(fs, last).None? then [last] else [])
  }

  /** Records keep target order: the records of a split target list are those
      of the first part followed by those of the second. */
  lemma {:induction false} RecordsSplice(fs: FileSystem, a: seq<string>, b: seq<string>, display: string -> string, count: string -> nat)
    ensures Records(fs, a + b, display, count) == Records(fs, a, display, count) + Records(fs, b, display, count)
  {
    if b == [] {
      assert a + b == a;
    } else {
      var b' := b[..|b| - 1];
      assert (a + b)[..|a + b| - 1] == a + b';
      assert (a + b)[|a + b| - 1] == b[|b| - 1];
      RecordsSplice(fs, a, b', display, count);
    }
  }

  /** A single target yields one record carrying its label, count and text
      when it can be read, and none otherwise. */
  lemma RecordsOfOne(fs: FileSystem, t: string, display: string -> string, count: string -> nat)
    ensures ReadFile(fs, t).None? ==> Records(fs, [t], display, count) == []
    ensures ReadFile(fs, t).Some? ==>
      var body := ReadFile(fs, t).value;
      Records(fs, [t], display, count) == [FileRecord(display(t), count(body), body)]
  {
    assert [t][..0] == [];
  }

  /** The warnings of a split target list are those of the first part
      followed by those of the second. */
  lemma {:induction false} UnreadableSplice(fs: FileSystem, a: seq<string>, b: seq<string>)
    ensures Unreadable(fs, a + b) == Unreadable(fs, a) + Unreadable(fs, b)
  {
    if b == [] {
      assert a + b == a;
    } else {
      var b' := b[..|b| - 1];
      assert (a + b)[..|a + b| - 1] == a + b';
      assert (a + b)[|a + b| - 1] == b[|b| - 1];
      UnreadableSplice(fs, a, b');
    }
  }

  /** A single target draws one warning when its read fails, none otherwise. */
  lemma UnreadableOfOne(fs: FileSystem, t: string)
    ensures Unreadable(fs, [t]) == if ReadFile(fs, t).None? then [t] else []
  {
    assert [t][..0] == [];
  }

  /** Every target is either read into a record or reported unreadable, and
      each target falls on exactly one side. */
  lemma {:induction false} RecordsAndFailuresPartition(fs: FileSystem, targets: seq<string>, display: string -> string, count: string -> nat)
    ensures |Records(fs, targets, display, count)| + |Unreadable(fs, targets)| == |targets|
    ensures forall i :: 0 <= i < |targets| ==>
      (targets[i] in Unreadable(fs, targets) <==> ReadFile(fs, targets[i]).None?)
    ensures forall i :: 0 <= i < |targets| && ReadFile(fs, targets[i]).Some? ==>
      exists k :: (0 <= k < |Records(fs, targets, display, count)|
        && Records(fs, targets, display, count)[k].body == ReadFile(fs, targets[i]).value
        && Records(fs, targets, display, count)[k].path == display(targets[i]))
  {
    if targets != [] {
      RecordsAndFailuresPartition(fs, targets[..|targets| - 1], display, count);
    }
    forall i | 0 <= i < |targets| && ReadFile(fs, targets[i]).Some?
      ensures exists k :: (0 <= k < |Records(fs, targets, display, count)|
        && Records(fs, targets, display, count)[k].body == ReadFile(fs, targets[i]).value
        && Records(fs, targets, display, count)[k].path == display(targets[i]))
    {
      ReadableTargetHasRecord(fs, targets, display, count, targets[i]);
    }
  }

  /** There are no records exactly when every read fails. */
  lemma {:induction false} NoRecordsIffAllReadsFail(fs: FileSystem, targets: seq<string>, display: string -> string, count: string -> nat)
    ensures Records(fs, targets, display, count) == [] <==>
      forall i :: 0 <= i < |targets| ==> ReadFile(fs, targets[i]).None?
  {
    if targets != [] {
      var init := targets[..|targets| - 1];
      NoRecordsIffAllReadsFail(fs, init, display, count);
      assert forall i :: 0 <= i < |init| ==> init[i] == targets[i];
    }
  }

  /** Every readable target yields a record with its label, count and text. */
  lemma {:induction false} ReadableTargetHasRecord(fs: FileSystem, targets: seq<string>, display: string -> string, count: string -> nat, t: string)
    requires t in targets && ReadFile(fs, t).Some?
    ensures exists k :: (0 <= k < |Records(fs, targets, display, count)|
      && Records(fs, targets, display, count)[k] == FileRecord(display(t), count(ReadFile(fs, t).value), ReadFile(fs, t).value))
  {
    var init := targets[..|targets| - 1];
    var records := Records(fs, targets, display, count);
    if t == targets[|targets| - 1] {
      assert records[|records| - 1] == FileRecord(display(t), count(ReadFile(fs, t).value), ReadFile(fs, t).value);
    } else {
      assert t in init by {
        var i :| 0 <= i < |targets| && targets[i] == t;
        assert init[i] == t;
      }
      ReadableTargetHasRecord(fs, init, display, count, t);
      var k :| 0 <= k < |Records(fs, init, display, count)|
        && Records(fs, init, display, count)[k] == FileRecord(display(t), count(ReadFile(fs, t).value), ReadFile(fs, t).value);
      assert records[k] == Records(fs, init, display, count)[k];
    }
  }

  /** The sum of the records' token counts. */
  function TotalTokens(records: seq<FileRecord>): (total: nat)
    ensures total == 0 <==> forall i :: 0 <= i < |records| ==> records[i].tokens == 0
  {
    if records == [] then 0
    else TotalTokens(records[..|records| - 1]) + records[|records| - 1].tokens
  }

  /** The total of a split record list is the sum of the parts' totals. */
  lemma {:induction false} TotalTokensSplice(a: seq<FileRecord>, b: seq<FileRecord>)
    ensures TotalTokens(a + b) == TotalTokens(a) + TotalTokens(b)
  {
    if b == [] {
      assert a + b == a;
    } else {
      var b' := b[..|b| - 1];
      assert (a + b)[..|a + b| - 1] == a + b';
      TotalTokensSplice(a, b');
    }
  }

  /** No record counts more tokens than the total. */
  lemma {:induction false} RecordWithinTotal(records: seq<FileRecord>, k: int)
    requires 0 <= k < |records|
    ensures records[k].tokens <= TotalTokens(records)
  {
    if k < |records| - 1 {
      RecordWithinTotal(records[..|records| - 1], k);
    }
  }

  /** Reading one more target extends the records and the failures by that
      target's outcome. */
  lemma ReadStep(fs: FileSystem, targets: seq<string>, k: int, display: string -> string, count: string -> nat)
    requires 0 <= k < |targets|
    ensures ReadFile(fs, targets[k]).Some? ==>
      var content := ReadFile(fs, targets[k]).value;
      && Records(fs, targets[..k + 1], display, count)
         == Records(fs, targets[..k], display, count) + [FileRecord(display(targets[k]), count(content), content)]
      && Unreadable(fs, targets[..k + 1]) == Unreadable(fs, targets[..k])
    ensures ReadFile(fs, targets[k]).None? ==>
      && Records(fs, targets[..k + 1], display, count) == Records(fs, targets[..k], display, count)
      && Unreadable(fs, targets[..k + 1]) == Unreadable(fs, targets[..k]) + [targets[k]]
  {
    assert targets[..k + 1][..k] == targets[..k];
    assert targets[..k + 1][k] == targets[k];
  }

  /** Appending a record adds its tokens to the total. */
  lemma TotalTokensStep(records: seq<FileRecord>, rec: FileRecord)
    ensures TotalTokens(records + [rec]) == TotalTokens(records) + rec.tokens
  {
    assert (records + [rec])[..|records|] == records;
  }

  /** The read-and-count loop of the copy command. */
  method BuildRecords(fs: FileSystem, targets: seq<string>, display: string -> string, count: string -> nat)
    returns (records: seq<FileRecord>, total: nat, unreadable: seq<string>)
    ensures records == Records(fs, targets, display, count)
    ensures total == TotalTokens(records)
    ensures unreadable == Unreadable(fs, targets)
  {
    records, total, unreadable := [], 0, [];
    var k := 0;
    while k < |targets|
      invariant 0 <= k <= |targets|
      invariant records == Records(fs, targets[..k], display, count)
      invariant total == TotalTokens(records)
      invariant unreadable == Unreadable(fs, targets[..k])
    {
      var t := targets[k];
      ReadStep(fs, targets, k, display, count);
      var content := ReadFile(fs, t);
      if content.Some? {
        var tks := count(content.value);
        var rec := FileRecord(display(t), tks, content.value);
        TotalTokensStep(records, rec);
        assert records + [rec] == Records(fs, targets[..k + 1], display, count);
        assert unreadable == Unreadable(fs, targets[..k + 1]);
        records := records + [rec];
        total := total + tks;
      } else {
        assert records == Records(fs, targets[..k + 1], display, count);
        assert unreadable + [t] == Unreadable(fs, targets[..k + 1]);
        unreadable := unreadable + [t];
      }
      k := k + 1;
    }
    assert targets[..k] == targets;
  }

  /* ───── the summary decision ───── */

  /** The `summaryMode` setting. */
  datatype Mode = Auto | Always | Off

  /** The summary settings: mode and `summaryThresholdTokens`. */
  datatype Policy = Policy(mode: Mode, threshold: int)

  /** The settings' defaults when the user configured nothing. */
  const DefaultPolicy: Policy := Policy(Auto, 50000)

  /** Totals above this draw the oversize warning. */
  const OversizeLimit: nat := 200000

  predicate WantSummary(policy: Policy, total: nat) {
    policy.mode == Always || (policy.mode == Auto && total > policy.threshold)
  }

  /** Off never summarises, always always does, and auto does exactly when
      the total strictly exceeds the threshold, so not at the threshold. */
  lemma SummaryByMode(policy: Policy, total: nat)
    ensures policy.mode == Off ==> !WantSummary(policy, total)
    ensures policy.mode == Always ==> WantSummary(policy, total)
    ensures policy.mode == Auto ==> (WantSummary(policy, total) <==> total > policy.threshold)
    ensures policy.mode == Auto && total == policy.threshold ==> !WantSummary(policy, total)
  {
  }

  /** Adding tokens never removes the summary. */
  lemma SummaryMonotone(policy: Policy, total: nat, larger: nat)
    requires total <= larger
    ensures WantSummary(policy, total) ==> WantSummary(policy, larger)
  {
  }

  /** The oversize warning fires exactly above the limit. */
  predicate Oversize(total: nat) {
    total > OversizeLimit
  }

  /* ───── rendering ───── */

  const SummaryTitle: string := "### Selection summary (approx.):\n"
  const BlockOpen: string := ":\n```\n"
  const BlockClose: string := "\n```\n\n"

  /** One bullet of the summary; `grouping` is the locale's digit grouping. */
  function SummaryLine(r: FileRecord, grouping: nat -> string): string {
    "\U{2022} " + r.path + "  (~" + grouping(r.tokens) + " tk)\n"
  }

  /** The pieces `piece` renders for each record, concatenated in order. */
  function ConcatMap(records: seq<FileRecord>, piece: FileRecord -> string): string {
    if records == [] then []
    else ConcatMap(records[..|records| - 1], piece) + piece(records[|records| - 1])
  }

  lemma {:induction false} ConcatMapSplice(a: seq<FileRecord>, b: seq<FileRecord>, piece: FileRecord -> string)
    ensures ConcatMap(a + b, piece) == ConcatMap(a, piece) + ConcatMap(b, piece)
  {
    if b == [] {
      assert a + b == a;
    } else {
      var b' := b[..|b| - 1];
      assert (a + b)[..|a + b| - 1] == a + b';
      assert (a + b)[|a + b| - 1] == b[|b| - 1];
      ConcatMapSplice(a, b', piece);
    }
  }

  lemma SplitAfter<T>(s: seq<T>, k: int)
    requires 0 <= k < |s|
    ensures s == s[..k + 1] + s[k + 1..]
    ensures s[..k + 1][..k] == s[..k] && s[..k + 1][k] == s[k]
  {
  }

  /** Rendering record `k` between the records before and after it. */
  lemma ConcatMapAround(records: seq<FileRecord>, k: int, piece: FileRecord -> string)
    requires 0 <= k < |records|
    ensures ConcatMap(records, piece) == ConcatMap(records[..k], piece) + piece(records[k]) + ConcatMap(records[k + 1..], piece)
  {
    var upto := records[..k + 1];
    SplitAfter(records, k);
    assert ConcatMap(upto, piece) == ConcatMap(records[..k], piece) + piece(records[k]);
    ConcatMapSplice(upto, records[k + 1..], piece);
  }

  function Bullet(grouping: nat -> string): FileRecord -> string {
    r => SummaryLine(r, grouping)
  }

  function SummaryLines(records: seq<FileRecord>, grouping: nat -> string): string {
    ConcatMap(records, Bullet(grouping))
  }

  /** The header: title, one bullet per record, a blank line. */
  function Header(records: seq<FileRecord>, grouping: nat -> string): string {
    SummaryTitle + SummaryLines(records, grouping) + "\n"
  }

  /** One file's block: its label line, then its text verbatim in a fence. */
  function Block(r: FileRecord): string {
    r.path + BlockOpen + r.body + BlockClose
  }

  function Blocks(records: seq<FileRecord>): string {
    ConcatMap(records, Block)
  }

  /** The header when wanted, or nothing. */
  function Preamble(records: seq<FileRecord>, want: bool, grouping: nat -> string): string {
    if want then Header(records, grouping) else []
  }

  /** The clipboard text: optional header, then every file's block. */
  function Render(records: seq<FileRecord>, want: bool, grouping: nat -> string): string {
    Preamble(records, want, grouping) + Blocks(records)
  }

  /** `x` occurs in `text` at position `at`. */
  predicate OccursAt(text: string, at: int, x: string) {
    0 <= at && at + |x| <= |text| && text[at..at + |x|] == x
  }

  /** In `a + b + c + d + e`, the middle three parts occur where their
      lengths put them. */
  lemma OccursInFive(a: string, b: string, c: string, d: string, e: string)
    ensures OccursAt(a + b + c + d + e, |a|, b)
    ensures OccursAt(a + b + c + d + e, |a| + |b|, c)
    ensures OccursAt(a + b + c + d + e, |a| + |b| + |c|, d)
  {
    var text := a + b + c + d + e;
    assert text[|a|..|a| + |b|] == b;
    assert text[|a| + |b|..|a| + |b| + |c|] == c;
    assert text[|a| + |b| + |c|..|a| + |b| + |c| + |d|] == d;
  }

  /** In `a + b + c + d`, the first and third parts occur where their
      lengths put them. */
  lemma OccursInFour(a: string, b: string, c: string, d: string)
    ensures OccursAt(a + b + c + d, 0, a)
    ensures OccursAt(a + b + c + d, |a| + |b|, c)
  {
    var text := a + b + c + d;
    assert text[0..|a|] == a;
    assert text[|a| + |b|..|a| + |b| + |c|] == c;
  }

  /** Where record `k`'s text starts in the rendered document. */
  function BodyOffset(records: seq<FileRecord>, want: bool, grouping: nat -> string, k: int): int
    requires 0 <= k < |records|
  {
    |Preamble(records, want, grouping)| + |Blocks(records[..k])| + |records[k].path| + |BlockOpen|
  }

  /** Each file's text appears verbatim in the document, preceded by its label
      line and opening fence and followed by the closing fence. */
  lemma BodyVerbatim(records: seq<FileRecord>, want: bool, grouping: nat -> string, k: int)
    requires 0 <= k < |records|
    ensures var text := Render(records, want, grouping);
            var at := BodyOffset(records, want, grouping, k);
            && OccursAt(text, at, records[k].body)
            && OccursAt(text, at - |BlockOpen| - |records[k].path|, records[k].path + BlockOpen)
            && OccursAt(text, at + |records[k].body|, BlockClose)
  {
    var r := records[k];
    var before := Preamble(records, want, grouping) + Blocks(records[..k]);
    var opening := r.path + BlockOpen;
    var after := Blocks(records[k + 1..]);
    RenderAround(records, want, grouping, k);
    OccursInFive(before, opening, r.body, BlockClose, after);
    assert BodyOffset(records, want, grouping, k) == |before| + |opening|;
  }

  /** The document split around record `k`'s block. */
  lemma RenderAround(records: seq<FileRecord>, want: bool, grouping: nat -> string, k: int)
    requires 0 <= k < |records|
    ensures Render(records, want, grouping)
      == (Preamble(records, want, grouping) + Blocks(records[..k]))
         + (records[k].path + BlockOpen) + records[k].body + BlockClose + Blocks(records[k + 1..])
  {
    ConcatMapAround(records, k, Block);
    RegroupBlock(Preamble(records, want, grouping), Blocks(records[..k]), records[k].path + BlockOpen,
                 records[k].body, BlockClose, Blocks(records[k + 1..]));
  }

  lemma RegroupBlock(p: string, before: string, opening: string, body: string, closing: string, after: string)
    ensures p + (before + (opening + body + closing) + after) == (p + before) + opening + body + closing + after
  {
  }

  /** The document with the header, split around record `k`'s bullet. */
  lemma HeaderAround(records: seq<FileRecord>, grouping: nat -> string, k: int)
    requires 0 <= k < |records|
    ensures Render(records, true, grouping)
      == SummaryTitle + SummaryLines(records[..k], grouping) + SummaryLine(records[k], grouping)
         + (SummaryLines(records[k + 1..], grouping) + "\n" + Blocks(records))
  {
    ConcatMapAround(records, k, Bullet(grouping));
    Regroup(SummaryTitle, SummaryLines(records[..k], grouping), SummaryLine(records[k], grouping),
            SummaryLines(records[k + 1..], grouping), "\n", Blocks(records));
  }

  lemma Regroup(t: string, l1: string, l2: string, l3: string, n: string, b: string)
    ensures (t + (l1 + l2 + l3) + n) + b == t + l1 + l2 + (l3 + n + b)
  {
  }

  /** With the header wanted, the document opens with the title and lists
      record `k` on its own bullet, after the bullets of the records before it. */
  lemma HeaderListsRecord(records: seq<FileRecord>, grouping: nat -> string, k: int)
    requires 0 <= k < |records|
    ensures var text := Render(records, true, grouping);
            && OccursAt(text, 0, SummaryTitle)
            && OccursAt(text, |SummaryTitle| + |SummaryLines(records[..k], grouping)|, SummaryLine(records[k], grouping))
  {
    HeaderAround(records, grouping, k);
    OccursInFour(SummaryTitle, SummaryLines(records[..k], grouping), SummaryLine(records[k], grouping),
                 SummaryLines(records[k + 1..], grouping) + "\n" + Blocks(records));
  }

  /** Without the header, the document opens directly with the first file's
      label line. */
  lemma NoHeaderStartsWithFirstFile(records: seq<FileRecord>, grouping: nat -> string)
    requires records != []
    ensures OccursAt(Render(records, false, grouping), 0, records[0].path + BlockOpen)
  {
    BodyVerbatim(records, false, grouping, 0);
    assert records[..0] == [];
  }
}
