/** `TextureExtractor.run()`: copy the textures of the game's jar into the staging
    directory `tmp`, counting the files written. */
module TextureExtractor {
  import opened Options
  import opened Strings
  import opened Streams
  import opened Archives

  /** The staging directory as the extractor writes it: file contents keyed by path
      relative to `tmp` (which is the entry name). */
  type Staging = map<string, Bytes>

  /** The entry filter: the name ends with ".png" and does not contain "realms"
      anywhere, both tested case-sensitively on the whole name. */
  predicate Accepts(name: string) {
    EndsWith(name, ".png") && !Contains(name, "realms")
  }

  /** The accepted entries of an archive, in archive order. */
  function Accepted(entries: Archive): (r: Archive)
    ensures forall e :: e in r <==> e in entries && Accepts(e.name)
    ensures |r| <= |entries|
    decreases |entries|
  {
    if |entries| == 0 then []
    else
      var last := entries[|entries| - 1];
      Accepted(entries[..|entries| - 1]) + (if Accepts(last.name) then [last] else [])
  }

  /** The names the extractor may write for `entries`. */
  ghost function AcceptedNames(entries: Archive): set<string> {
    set e | e in Accepted(entries) :: e.name
  }

  /** The extractor's running state: what is in the staging directory, and how many
      files have been written. */
  datatype Progress = Progress(staging: Staging, extractedCount: nat)

  /** Processes `entries` in order from `p`: each accepted entry replaces the file at
      its name with its full content and bumps the counter; rejected entries are
      skipped. */
  function ExtractAll(p: Progress, entries: Archive): (r: Progress)
    ensures r.extractedCount == p.extractedCount + |Accepted(entries)|
    decreases |entries|
  {
    if |entries| == 0 then p
    else
      var q := ExtractAll(p, entries[..|entries| - 1]);
      var e := entries[|entries| - 1];
      if Accepts(e.name) then Progress(q.staging[e.name := e.bytes], q.extractedCount + 1) else q
  }

  /** Only accepted names appear in the staging directory, all of them do, and every
      other file keeps its content. */
  lemma {:induction false} StagingChanges(p: Progress, entries: Archive)
    ensures forall n :: n in ExtractAll(p, entries).staging <==> n in p.staging || n in AcceptedNames(entries)
    ensures forall n :: n in p.staging && n !in AcceptedNames(entries) ==>
      ExtractAll(p, entries).staging[n] == p.staging[n]
    decreases |entries|
  {
    if |entries| > 0 {
      var init := entries[..|entries| - 1];
      var e := entries[|entries| - 1];
      StagingChanges(p, init);
      assert Accepted(entries) == Accepted(init) + (if Accepts(e.name) then [e] else []);
      assert AcceptedNames(entries) == AcceptedNames(init) + (if Accepts(e.name) then {e.name} else {});
    }
  }

  /** The accepted entries of a prefix of the archive are a prefix of its accepted
      entries. */
  lemma {:induction false} AcceptedOfPrefix(entries: Archive, i: nat)
    requires i <= |entries|
    ensures Accepted(entries[..i]) <= Accepted(entries)
    decreases |entries|
  {
    if i < |entries| {
      var init := entries[..|entries| - 1];
      AcceptedOfPrefix(init, i);
      assert init[..i] == entries[..i];
    } else {
      assert entries[..i] == entries;
    }
  }

  /** The counter never goes down as the extractor moves through the archive. */
  lemma CountMonotone(p: Progress, entries: Archive, i: nat, j: nat)
    requires i <= j <= |entries|
    ensures ExtractAll(p, entries[..i]).extractedCount <= ExtractAll(p, entries[..j]).extractedCount
  {
    AcceptedOfPrefix(entries[..j], i);
    assert entries[..j][..i] == entries[..i];
  }

  /** Rejected entries leave no trace: processing only the accepted entries gives
      the same staging directory and the same count. */
  lemma {:induction false} RejectedIgnored(p: Progress, entries: Archive)
    ensures ExtractAll(p, entries) == ExtractAll(p, Accepted(entries))
    decreases |entries|
  {
    if |entries| > 0 {
      var init := entries[..|entries| - 1];
      var last := entries[|entries| - 1];
      RejectedIgnored(p, init);
      var q := ExtractAll(p, init);
      assert Accepted(entries) == Accepted(init) + (if Accepts(last.name) then [last] else []);
      if Accepts(last.name) {
        var acc := Accepted(init) + [last];
        assert acc == Accepted(entries);
        assert acc[..|acc| - 1] == Accepted(init);
        assert acc[|acc| - 1] == last;
        assert ExtractAll(p, acc[..|acc| - 1]) == q;
        assert ExtractAll(p, acc) == Progress(q.staging[last.name := last.bytes], q.extractedCount + 1);
        assert ExtractAll(p, entries) == Progress(q.staging[last.name := last.bytes], q.extractedCount + 1);
      } else {
        assert ExtractAll(p, entries) == q;
        assert Accepted(entries) == Accepted(init);
      }
    }
  }

  /** The file at an accepted entry's name holds that entry's full content, unless a
      later entry of the same name overwrote it. */
  lemma {:induction false} LastWriteWins(p: Progress, entries: Archive, i: nat)
    requires i < |entries|
    requires Accepts(entries[i].name)
    requires forall j :: i < j < |entries| ==> entries[j].name != entries[i].name
    ensures entries[i].name in ExtractAll(p, entries).staging
    ensures ExtractAll(p, entries).staging[entries[i].name] == entries[i].bytes
    decreases |entries|
  {
    if i < |entries| - 1 {
      var init := entries[..|entries| - 1];
      LastWriteWins(p, init, i);
    }
  }

  /** An `IOException` while handling entry `at` (reading its header, opening its
      output file, or copying or closing it). `partial` is `None` when no output file
      had been opened yet, and `Some(k)` when the file had been created and received
      the first `k` bytes of the entry. */
  datatype Fault = Fault(at: nat, partial: Option<nat>)

  /** The final state of `run()`: staging contents, `extractedCount`, `finished`. */
  datatype Outcome = Outcome(staging: Staging, extractedCount: nat, finished: bool)

  /** The number of entries fully handled before the fault, if any. */
  function Processed(archive: Archive, fault: Option<Fault>): (k: nat)
    ensures k <= |archive|
    ensures fault.None? ==> k == |archive|
    ensures fault.Some? && fault.value.at < |archive| ==> k == fault.value.at
    ensures fault.Some? && fault.value.at >= |archive| ==> k == |archive|
  {
    match fault
    case None => |archive|
    case Some(f) => if f.at < |archive| then f.at else |archive|
  }

  /** The file left by the fault, if the faulting entry is accepted and its output
      file had been opened. */
  function AfterFault(archive: Archive, fault: Option<Fault>, staging: Staging): Staging {
    var k := Processed(archive, fault);
    if fault.Some? && k < |archive| && Accepts(archive[k].name) && fault.value.partial.Some? then
      staging[archive[k].name := Truncate(archive[k].bytes, fault.value.partial.value)]
    else staging
  }

  /** `run()` over `archive` with the staging directory initially holding `start`.
      The entries before the fault are extracted completely; the fault ends the loop,
      is caught, and `finished` is set all the same. */
  function Run(start: Staging, archive: Archive, fault: Option<Fault>): (r: Outcome)
    ensures r.finished
    ensures r.extractedCount == |Accepted(archive[..Processed(archive, fault)])|
    ensures r.extractedCount <= |Accepted(archive)|
    ensures fault.None? ==> r.extractedCount == |Accepted(archive)|
    ensures forall n :: n in r.staging ==> n in start || n in AcceptedNames(archive)
    ensures forall n :: n in start && n !in AcceptedNames(archive) ==> n in r.staging && r.staging[n] == start[n]
  {
    var k := Processed(archive, fault);
    var done := ExtractAll(Progress(start, 0), archive[..k]);
    StagingChanges(Progress(start, 0), archive[..k]);
    AcceptedOfPrefix(archive, k);
    assert k < |archive| ==> archive[k] in archive;
    assert archive[..|archive|] == archive;
    Outcome(AfterFault(archive, fault, done.staging), done.extractedCount, true)
  }

  /** Entries after the faulting one have no influence on the outcome. */
  lemma FaultStopsProcessing(start: Staging, archive: Archive, f: Fault)
    requires f.at < |archive|
    ensures Run(start, archive, Some(f)) == Run(start, archive[..f.at + 1], Some(f))
  {
    assert archive[..f.at + 1][..f.at] == archive[..f.at];
  }

  /** Without a fault, an archive whose accepted entries have distinct names leaves
      every accepted entry's full content at its name. */
  lemma EveryAcceptedEntryExtracted(start: Staging, archive: Archive, i: nat)
    requires i < |archive| && Accepts(archive[i].name)
    requires forall j :: i < j < |archive| ==> archive[j].name != archive[i].name
    ensures archive[i].name in Run(start, archive, None).staging
    ensures Run(start, archive, None).staging[archive[i].name] == archive[i].bytes
  {
    assert archive[..|archive|] == archive;
    LastWriteWins(Progress(start, 0), archive, i);
  }

  /** One more entry for `ExtractAll`: an accepted entry replaces the file at its
      name and bumps the counter, a rejected one changes nothing. */
  lemma ExtractStep(p: Progress, archive: Archive, i: nat)
    requires i < |archive|
    ensures ExtractAll(p, archive[..i + 1]) ==
      var q := ExtractAll(p, archive[..i]);
      var e := archive[i];
      if Accepts(e.name) then Progress(q.staging[e.name := e.bytes], q.extractedCount + 1) else q
  {
    var next := archive[..i + 1];
    assert next[..i] == archive[..i] && next[i] == archive[i];
  }

  /** `Run` in terms of the state after the entries before the fault. */
  lemma RunAfter(start: Staging, archive: Archive, fault: Option<Fault>)
    ensures Run(start, archive, fault) ==
      var done := ExtractAll(Progress(start, 0), archive[..Processed(archive, fault)]);
      Outcome(AfterFault(archive, fault, done.staging), done.extractedCount, true)
  {
  }

  /** The body of the loop for one entry without a fault: an accepted entry is
      streamed into its staging file and counted. */
  method ExtractEntry(p: Progress, e: Entry, choice: nat -> nat) returns (q: Progress)
    ensures Accepts(e.name) ==> q == Progress(p.staging[e.name := e.bytes], p.extractedCount + 1)
    ensures !Accepts(e.name) ==> q == p
  {
    q := p;
    if Accepts(e.name) {
      var written, _ := Copy(e.bytes, choice);
      q := Progress(p.staging[e.name := written], p.extractedCount + 1);
    }
  }

  /** The loop of `run()` itself, with the chunked copy of each accepted entry;
      `choice` is how many bytes the archive stream delivers per read. */
  method Extract(start: Staging, archive: Archive, fault: Option<Fault>, choice: nat -> nat)
    returns (r: Outcome)
    ensures r == Run(start, archive, fault)
  {
    var p := Progress(start, 0);
    var i := 0;
    while i < |archive| && !(fault.Some? && fault.value.at == i)
      invariant i <= Processed(archive, fault)
      invariant p == ExtractAll(Progress(start, 0), archive[..i])
    {
      ExtractStep(Progress(start, 0), archive, i);
      p := ExtractEntry(p, archive[i], choice);
      i := i + 1;
    }
    var staging := p.staging;
    if i < |archive| {
      // The fault at entry `i` ends the loop, leaving whatever it had written.
      var e := archive[i];
      if Accepts(e.name) && fault.value.partial.Some? {
        staging := staging[e.name := Truncate(e.bytes, fault.value.partial.value)];
      }
    }
    assert i == Processed(archive, fault);
    RunAfter(start, archive, fault);
    r := Outcome(staging, p.extractedCount, true);
  }
}
