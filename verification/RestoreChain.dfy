/**
 The whole chain of a restore: import a backup, validate its drafts, write those that are staged,
 and import the same backup again.

 The import compares with an absolute tolerance and the drafts with a relative one, so a change
 that the import reports can be one that the drafts do not stage.
 */
module RestoreChain {
  import opened Collections
  import opened Texts
  import BackupRestore
  import BackupText
  import DraftValidation
  import ReadbackWaiters
  import Sorting

  type Live = seq<BackupRestore.Parameter>
  type Entries = seq<BackupText.Entry>

  /** The tolerance of the write path, `DEFAULT_PARAMETER_WRITE_TOLERANCE`. */
  const WRITE_TOLERANCE: real := 0.0001

  /** What the chain is given besides the backup: the catalog, the operator's choices and JavaScript's number syntax. */
  datatype Chain = Chain(
    show: real -> string, read: string -> Option<DraftValidation.Number>,
    isGain: string -> bool, family: string -> Option<string>,
    definition: string -> Option<DraftValidation.Definition>, forced: set<string>,
    category: string -> Option<BackupRestore.Category>, excluded: set<BackupRestore.Category>,
    store: real -> real)

  function Environment(c: Chain): DraftValidation.Environment {
    DraftValidation.Environment(
      c.read, (draft: real, current: real) => ReadbackWaiters.ApproximatelyEqual(draft, current, WRITE_TOLERANCE),
      c.isGain, c.family)
  }

  /** What a staged draft writes: the number its trimmed text stands for. */
  function ReadDraft(c: Chain): string -> Option<real> {
    (text: string) =>
      var parsed := c.read(Trim(text));
      if parsed.Some? then Some(DraftValidation.Value(parsed.value)) else None
  }

  function Options(c: Chain): BackupRestore.Options {
    BackupRestore.Options(c.category, c.excluded, BackupRestore.DraftText(c.show, ReadDraft(c)), c.store)
  }

  lemma OptionsFields(c: Chain)
    ensures Options(c).category == c.category && Options(c).store == c.store
  {
  }

  /** The draft of an id, as validated against the live set. */
  function Draft(c: Chain, live: Live, id: string, text: string): DraftValidation.Entry {
    var p := BackupRestore.Lookup(live, id);
    DraftValidation.Derive(
      Environment(c), if p.Some? then Some(DraftValidation.Parameter(id, p.value.value, c.definition(id))) else None,
      text, id, id in c.forced)
  }

  function StagedIds(c: Chain, live: Live, drafts: map<string, string>): set<string> {
    set id | id in drafts && Draft(c, live, id, drafts[id]).status == DraftValidation.Staged
  }

  /** The live set after the chain has written what it staged. */
  function Restored(c: Chain, live: Live, drafts: map<string, string>): Live {
    BackupRestore.Apply(Options(c), live, BackupRestore.Only(drafts, StagedIds(c, live, drafts)))
  }

  /** What is written for a staged id is the value its entry carries. */
  lemma WritesNextValue(c: Chain, live: Live, drafts: map<string, string>, id: string)
    requires id in StagedIds(c, live, drafts)
    ensures var e := Draft(c, live, id, drafts[id]);
            e.nextValue.Some? && ReadDraft(c)(drafts[id]) == Some(DraftValidation.Value(e.nextValue.value))
  {
    hide DraftValidation.Derive, Trim;
    DraftVerdict(c, live, id, drafts[id]);
  }

  lemma MissingRefused(env: DraftValidation.Environment, text: string, id: string, forced: bool)
    ensures DraftValidation.Derive(env, None, text, id, forced).status == DraftValidation.Invalid
  {
    hide Trim;
  }

  /**
   A staged draft is for a live parameter, and an accepted one is staged when it is not within the
   write tolerance.
   */
  lemma DraftVerdict(c: Chain, live: Live, id: string, text: string)
    ensures var e := Draft(c, live, id, text);
            var p := BackupRestore.Lookup(live, id); var parsed := c.read(Trim(text));
            && (e.status != DraftValidation.Invalid ==> p.Some? && parsed.Some?)
            && (e.status != DraftValidation.Invalid ==>
                  (e.status == DraftValidation.Staged
                   <==> !ReadbackWaiters.ApproximatelyEqual(
                     DraftValidation.Value(parsed.value), p.value.value, WRITE_TOLERANCE)))
            && (e.status == DraftValidation.Staged ==> e.nextValue == parsed)
  {
    hide DraftValidation.Derive, DraftValidation.WithinMetadata, Trim, ReadbackWaiters.ApproximatelyEqual;
    var p := BackupRestore.Lookup(live, id);
    if p.Some? {
      var q := DraftValidation.Parameter(id, p.value.value, c.definition(id));
      DraftValidation.AcceptedExactly(Environment(c), q, text, id in c.forced);
    } else {
      MissingRefused(Environment(c), text, id, id in c.forced);
    }
  }

  /**
   A draft of the chain is accepted exactly when its id is live, its text is a finite number and no
   negative gain, and the operator forces the id or the catalog's definition of it allows the number.
   */
  lemma DraftAccepted(c: Chain, live: Live, id: string, text: string)
    ensures var p, parsed := BackupRestore.Lookup(live, id), c.read(Trim(text));
            Draft(c, live, id, text).status != DraftValidation.Invalid
            <==> && p.Some? && Trim(text) != "" && parsed.Some?
                 && !(DraftValidation.Value(parsed.value) < 0.0 && c.isGain(id))
                 && (id in c.forced || c.definition(id).None?
                     || DraftValidation.WithinMetadata(c.definition(id).value, parsed.value))
  {
    hide DraftValidation.Derive, DraftValidation.WithinMetadata, Trim;
    var p := BackupRestore.Lookup(live, id);
    if p.Some? {
      var q := DraftValidation.Parameter(id, p.value.value, c.definition(id));
      DraftValidation.AcceptedExactly(Environment(c), q, text, id in c.forced);
    } else {
      MissingRefused(Environment(c), text, id, id in c.forced);
    }
  }

  /**
   The chain converges exactly when, for every matched entry whose id has a changed entry, the
   draft of the id is staged and the entry's value matches what is stored of the last changed entry.
   */
  lemma ChainConvergesExactly(c: Chain, le: (string, string) -> bool, live: Live, entries: Entries)
    requires BackupRestore.Faithful(Options(c), entries)
    ensures var opts := Options(c);
            var first := BackupRestore.Import(opts, le, live, entries);
            var second := BackupRestore.Import(opts, le, Restored(c, live, first.drafts), entries);
            && (second.changed == 0 <==> BackupRestore.Settles(opts, live, entries, StagedIds(c, live, first.drafts)))
            && second.unknownIds == first.unknownIds && second.newIds == first.newIds && second.matched == first.matched
  {
    hide BackupRestore.Import, BackupRestore.Settles, StagedIds, Options;
    var first := BackupRestore.Import(Options(c), le, live, entries);
    BackupRestore.SecondImport(Options(c), le, live, entries, StagedIds(c, live, first.drafts));
  }

  /** An entry the import reports as changed, while its draft counts as the current value. */
  predicate IsLost(live: Live, e: BackupText.Entry) {
    var p := BackupRestore.Lookup(live, e.id);
    p.Some? && ReadbackWaiters.Abs(e.value - p.value.value) <= ReadbackWaiters.Abs(p.value.value) * 0.000001
  }

  /** For a changed entry only the relative part of the write tolerance can apply. */
  lemma WithinToleranceExactly(opts: BackupRestore.Options, live: Live, e: BackupText.Entry)
    requires BackupRestore.FateOf(opts, live, e) == BackupRestore.Changed
    ensures var p := BackupRestore.Lookup(live, e.id);
            && p.Some?
            && (ReadbackWaiters.ApproximatelyEqual(e.value, p.value.value, WRITE_TOLERANCE) <==> IsLost(live, e))
  {
    hide BackupRestore.Lookup, BackupRestore.HasStatPrefix, BackupRestore.IsInternalUseOnly;
  }

  /** The draft of a changed entry is staged exactly when it is not refused and not within the relative tolerance. */
  lemma StagedExactly(c: Chain, live: Live, entries: Entries, i: nat)
    requires BackupRestore.Faithful(Options(c), entries) && BackupText.Distinct(entries) && i < |entries|
    requires BackupRestore.FateOf(Options(c), live, entries[i]) == BackupRestore.Changed
    ensures var e := entries[i]; var drafts := BackupRestore.Drafts(Options(c), live, entries);
            && e.id in drafts
            && (e.id in StagedIds(c, live, drafts)
                <==> Draft(c, live, e.id, c.show(e.value)).status != DraftValidation.Invalid && !IsLost(live, e))
  {
    var e := entries[i];
    BackupRestore.DraftsExact(Options(c), live, entries);
    assert ReadDraft(c)(c.show(e.value)) == Some(e.value);
    WithinToleranceExactly(Options(c), live, e);
    DraftVerdict(c, live, e.id, c.show(e.value));
    hide BackupRestore.Drafts, BackupRestore.FateOf, BackupRestore.Lookup, Draft, Trim, BackupRestore.Faithful,
      BackupText.Distinct, IsLost, ReadbackWaiters.ApproximatelyEqual;
  }

  /**
   With distinct ids the chain converges exactly when the draft of every changed entry is accepted,
   differs from the live value by more than a millionth of it, and is stored within the import's
   tolerance.
   */
  lemma DistinctChainExactly(c: Chain, le: (string, string) -> bool, live: Live, entries: Entries)
    requires BackupRestore.Faithful(Options(c), entries) && BackupText.Distinct(entries)
    ensures var opts := Options(c);
            var first := BackupRestore.Import(opts, le, live, entries);
            BackupRestore.Import(opts, le, Restored(c, live, first.drafts), entries).changed == 0
            <==> forall i :: 0 <= i < |entries|
                             && BackupRestore.FateOf(opts, live, entries[i]) == BackupRestore.Changed ==>
                   && Draft(c, live, entries[i].id, c.show(entries[i].value)).status != DraftValidation.Invalid
                   && !IsLost(live, entries[i])
                   && BackupRestore.ValuesMatch(c.store(entries[i].value), entries[i].value)
  {
    hide BackupRestore.ValuesMatch, BackupRestore.Import, BackupRestore.FateOf, BackupRestore.Drafts,
      BackupRestore.LastChanged, StagedIds, Options,
      Draft, IsLost, Restored, BackupRestore.Faithful, BackupText.Distinct;
    var opts := Options(c);
    var drafts := BackupRestore.Drafts(opts, live, entries);
    OptionsFields(c);
    BackupRestore.ImportDrafts(opts, le, live, entries);
    ChainConvergesExactly(c, le, live, entries);
    forall i | 0 <= i < |entries|
      ensures BackupRestore.LastChanged(opts, live, entries, entries[i].id)
              == if BackupRestore.FateOf(opts, live, entries[i]) == BackupRestore.Changed then Some(entries[i].value)
                 else None
      ensures BackupRestore.FateOf(opts, live, entries[i]) == BackupRestore.Changed ==>
                (entries[i].id in StagedIds(c, live, drafts)
                 <==> Draft(c, live, entries[i].id, c.show(entries[i].value)).status != DraftValidation.Invalid
                      && !IsLost(live, entries[i]))
    {
      BackupRestore.DistinctSettles(opts, live, entries, i);
      if BackupRestore.FateOf(opts, live, entries[i]) == BackupRestore.Changed {
        StagedExactly(c, live, entries, i);
      }
    }
  }

  /** A live 1000000.5 and a backed-up 1000000 never meet: the import reports a change that no draft stages. */
  lemma ChainCanStall(c: Chain, le: (string, string) -> bool)
    requires c.excluded == {} && BackupRestore.Faithful(Options(c), [BackupText.Entry("A", 1000000.0)])
    ensures var live := [BackupRestore.Parameter("A", 1000000.5, false, false)];
            var entries := [BackupText.Entry("A", 1000000.0)];
            var first := BackupRestore.Import(Options(c), le, live, entries);
            BackupRestore.Import(Options(c), le, Restored(c, live, first.drafts), entries).changed > 0
  {
    var live := [BackupRestore.Parameter("A", 1000000.5, false, false)];
    var entries := [BackupText.Entry("A", 1000000.0)];
    hide BackupRestore.Import, Restored, Draft;
    DistinctChainExactly(c, le, live, entries);
    assert IsLost(live, entries[0]);
    assert BackupRestore.FateOf(Options(c), live, entries[0]) == BackupRestore.Changed;
  }

  // ----- a controller's own file -----

  /** Seven digits keep a value within a millionth of itself. */
  ghost predicate KeepsDigits(num: BackupText.Numerals, entries: Entries) {
    forall i :: 0 <= i < |entries| ==>
      ReadbackWaiters.Abs(BackupText.Rounded(num, entries[i].value) - entries[i].value)
      <= ReadbackWaiters.Abs(entries[i].value) * 0.000001
  }

  /**
   A controller's own file, imported into it, may be reported as a change where the rounding is
   too coarse, but none of these changes is ever staged.
   */
  lemma OwnFileStagesNothing(c: Chain, num: BackupText.Numerals, le: (string, string) -> bool,
                             json: string -> Result<Entries, BackupText.ParseError>,
                             b: BackupText.Backup, live: Live, text: string)
    requires BackupRestore.DistinctLive(live) && Sorting.TotalPreorder(le)
    requires b.parameters == BackupRestore.CreateBackup(BackupRestore.ExportOptions(c.category, {}, None), le, live)
    requires BackupText.CleanFields(b) && BackupText.Printable(num, b.parameters) && KeepsDigits(num, b.parameters)
    requires text == BackupText.PrintParm(num, b) || text == BackupText.PrintParams(num, b)
    requires BackupRestore.Faithful(Options(c), BackupText.RoundAll(num, b.parameters))
    ensures var parsed := BackupText.ParseBackup(num, le, json, text);
            parsed.Ok? ==> StagedIds(c, live, BackupRestore.Import(Options(c), le, live, parsed.value).drafts) == {}
  {
    hide BackupText.ParseBackup, BackupText.PrintParm, BackupText.PrintParams, BackupText.CleanFields,
      BackupText.Printable, Sorting.TotalPreorder, Sorting.Sort, BackupRestore.Import, BackupRestore.FateOf,
      BackupRestore.CreateBackup, Options, BackupRestore.Drafts, Draft, BackupRestore.Faithful, KeepsDigits,
      BackupText.Distinct, BackupRestore.DistinctLive;
    var opts := Options(c);
    OptionsFields(c);
    BackupRestore.OwnFileReads(BackupRestore.ExportOptions(c.category, {}, None), num, le, json, b, live, text);
    var rounded := BackupText.RoundAll(num, b.parameters);
    BackupRestore.CreatedBackup(BackupRestore.ExportOptions(c.category, {}, None), le, live);
    BackupText.RoundKeepsDistinct(num, b.parameters);
    BackupRestore.ImportDrafts(opts, le, live, rounded);
    var drafts := BackupRestore.Drafts(opts, live, rounded);
    forall id | id in drafts
      ensures id !in StagedIds(c, live, drafts)
    {
      BackupRestore.LastChangedDraft(opts, live, rounded, id);
      var i :| 0 <= i < |rounded| && rounded[i].id == id
               && BackupRestore.FateOf(opts, live, rounded[i]) == BackupRestore.Changed;
      StagedExactly(c, live, rounded, i);
      OwnChangeIsLost(c, num, le, live, b.parameters, i);
    }
  }

  /** The rounded value of an exported entry lies within a millionth of the live one. */
  lemma OwnChangeIsLost(c: Chain, num: BackupText.Numerals, le: (string, string) -> bool, live: Live,
                        entries: Entries, i: nat)
    requires BackupRestore.DistinctLive(live) && KeepsDigits(num, entries) && i < |entries|
    requires entries == BackupRestore.CreateBackup(BackupRestore.ExportOptions(c.category, {}, None), le, live)
    ensures IsLost(live, BackupText.RoundEntry(num, entries[i]))
  {
    hide BackupRestore.IsExported;
    var defaults := BackupRestore.ExportOptions(c.category, {}, None);
    BackupRestore.ExportedFrom(defaults, live);
    Sorting.SortMembers(BackupText.ById(le), BackupRestore.Exported(defaults, live));
    assert entries[i] in entries;
    var k :| 0 <= k < |live| && BackupRestore.IsExported(defaults, live[k])
             && entries[i] == BackupRestore.EntryOf(live[k]);
    BackupRestore.LookupOwn(live, k);
  }
}
