/**
 Restoring a parameter backup: the diff of a backup against a live parameter set, and the
 export it starts from.

 The opt-in category of an id is a parameter (`category`), and so is how a value is turned into
 draft text and back: the results hold for every classifier and every faithful number syntax.
 */
module BackupRestore {
  import opened Collections
  import BackupText
  import Sorting

  type Entry = BackupText.Entry

  datatype Category = Calibration | StreamRates | Mission

  /** `snapshotExcluded` and `aliased` are the definition's flag and the presence of `aliasedFrom`. */
  datatype Parameter = Parameter(id: string, value: real, snapshotExcluded: bool, aliased: bool)

  datatype DraftText = DraftText(show: real -> string, read: string -> Option<real>)

  /**
   What an import is given besides the two parameter lists. `store` is what the controller keeps of
   a value written to it: single precision.
   */
  datatype Options = Options(
    category: string -> Option<Category>, excluded: set<Category>, text: DraftText, store: real -> real)

  /** The five fates of a backup entry. */
  datatype Fate = StatSkipped | Excluded | Unknown | Changed | Unchanged

  // ----- classifiers -----

  predicate HasStatPrefix(id: string) {
    |id| >= 5 && id[..5] == "STAT_"
  }

  /** `BARO<digits>_GND_PRESS`, the firmware-managed ids. */
  predicate IsInternalUseOnly(id: string) {
    && |id| > 14
    && id[..4] == "BARO" && id[|id| - 10..] == "_GND_PRESS"
    && forall i :: 4 <= i < |id| - 10 ==> '0' <= id[i] <= '9'
  }

  predicate IsSnapshotExcluded(p: Parameter) {
    p.aliased || p.snapshotExcluded || HasStatPrefix(p.id)
  }

  predicate IsCategoryExcluded(opts: Options, id: string) {
    opts.category(id).Some? && opts.category(id).value in opts.excluded
  }

  predicate ValuesMatch(left: real, right: real) {
    -0.0001 <= left - right <= 0.0001
  }

  /** `parameterById`: a later parameter with the same id replaces an earlier one. */
  function Lookup(live: seq<Parameter>, id: string): Option<Parameter> {
    if live == [] then None
    else if live[|live| - 1].id == id then Some(live[|live| - 1])
    else Lookup(live[..|live| - 1], id)
  }

  function FateOf(opts: Options, live: seq<Parameter>, e: Entry): Fate {
    if HasStatPrefix(e.id) then StatSkipped
    else if IsInternalUseOnly(e.id) || IsCategoryExcluded(opts, e.id) then Excluded
    else match Lookup(live, e.id)
         case None => Unknown
         case Some(p) => if ValuesMatch(p.value, e.value) then Unchanged else Changed
  }

  // ----- the import -----

  function WithFate(opts: Options, live: seq<Parameter>, entries: seq<Entry>, fate: Fate): seq<Entry> {
    if entries == [] then []
    else
      var last := entries[|entries| - 1];
      WithFate(opts, live, entries[..|entries| - 1], fate) + if FateOf(opts, live, last) == fate then [last] else []
  }

  function Drafts(opts: Options, live: seq<Parameter>, entries: seq<Entry>): map<string, string> {
    if entries == [] then map[]
    else
      var last := entries[|entries| - 1];
      var before := Drafts(opts, live, entries[..|entries| - 1]);
      if FateOf(opts, live, last) == Changed then before[last.id := opts.text.show(last.value)] else before
  }

  function Ids(entries: seq<Entry>): (ids: seq<string>)
    ensures |ids| == |entries|
  {
    seq(|entries|, i requires 0 <= i < |entries| => entries[i].id)
  }

  predicate Backed(entries: seq<Entry>, id: string) {
    exists i :: 0 <= i < |entries| && entries[i].id == id
  }

  /** Live ids the backup does not mention, minus those no backup would. */
  function NewIds(live: seq<Parameter>, entries: seq<Entry>): seq<string> {
    if live == [] then []
    else
      var p := live[|live| - 1];
      NewIds(live[..|live| - 1], entries)
      + if Backed(entries, p.id) || IsSnapshotExcluded(p) || IsInternalUseOnly(p.id) then [] else [p.id]
  }

  datatype ImportResult = ImportResult(
    drafts: map<string, string>, matched: nat, changed: nat, kept: nat,
    unknownIds: seq<string>, newIds: seq<string>, excluded: nat)

  function Import(opts: Options, le: (string, string) -> bool, live: seq<Parameter>, entries: seq<Entry>)
      : ImportResult
  {
    var changed := |WithFate(opts, live, entries, Changed)|;
    var kept := |WithFate(opts, live, entries, Unchanged)|;
    ImportResult(
      Drafts(opts, live, entries), changed + kept, changed, kept,
      Sorting.Sort(le, Ids(WithFate(opts, live, entries, Unknown))), Sorting.Sort(le, NewIds(live, entries)),
      |WithFate(opts, live, entries, Excluded)|)
  }

  /** `deriveDraftValuesFromParameterBackup`. */
  method DeriveDraftValues(opts: Options, le: (string, string) -> bool, live: seq<Parameter>, entries: seq<Entry>)
      returns (r: ImportResult)
    ensures r == Import(opts, le, live, entries)
  {
    hide HasStatPrefix, IsInternalUseOnly;
    var drafts: map<string, string> := map[];
    var unknownIds: seq<string> := [];
    var matched, changed, kept, excluded := 0, 0, 0, 0;
    var i := 0;
    while i < |entries|
      invariant 0 <= i <= |entries|
      invariant drafts == Drafts(opts, live, entries[..i])
      invariant unknownIds == Ids(WithFate(opts, live, entries[..i], Unknown))
      invariant changed == |WithFate(opts, live, entries[..i], Changed)|
      invariant kept == |WithFate(opts, live, entries[..i], Unchanged)|
      invariant excluded == |WithFate(opts, live, entries[..i], Excluded)|
      invariant matched == changed + kept
    {
      var e := entries[i];
      assert entries[..i + 1][..i] == entries[..i];
      i := i + 1;
      if HasStatPrefix(e.id) {
        continue;
      }
      if IsInternalUseOnly(e.id) {
        excluded := excluded + 1;
        continue;
      }
      if IsCategoryExcluded(opts, e.id) {
        excluded := excluded + 1;
        continue;
      }
      var current := Lookup(live, e.id);
      if current.None? {
        unknownIds := unknownIds + [e.id];
        continue;
      }
      matched := matched + 1;
      if ValuesMatch(current.value.value, e.value) {
        kept := kept + 1;
        continue;
      }
      drafts := drafts[e.id := opts.text.show(e.value)];
      changed := changed + 1;
    }
    assert entries[..i] == entries;
    var newIds: seq<string> := [];
    var j := 0;
    while j < |live|
      invariant 0 <= j <= |live|
      invariant newIds == NewIds(live[..j], entries)
    {
      var p := live[j];
      assert live[..j + 1][..j] == live[..j];
      j := j + 1;
      if Backed(entries, p.id) {
        continue;
      }
      if IsSnapshotExcluded(p) || IsInternalUseOnly(p.id) {
        continue;
      }
      newIds := newIds + [p.id];
    }
    assert live[..j] == live;
    r := ImportResult(drafts, matched, changed, kept, Sorting.Sort(le, unknownIds), Sorting.Sort(le, newIds), excluded);
  }

  // ----- conservation -----

  /** Every entry is counted exactly once, whether or not ids repeat. */
  lemma EveryEntryCounted(opts: Options, le: (string, string) -> bool, live: seq<Parameter>, entries: seq<Entry>)
    ensures var r := Import(opts, le, live, entries);
            |entries| == |WithFate(opts, live, entries, StatSkipped)| + r.excluded + |r.unknownIds| + r.changed + r.kept
  {
    Sorting.SortMembers(le, Ids(WithFate(opts, live, entries, Unknown)));
    FatesPartition(opts, live, entries);
  }

  lemma {:induction false} FatesPartition(opts: Options, live: seq<Parameter>, entries: seq<Entry>)
    ensures |entries| == |WithFate(opts, live, entries, StatSkipped)| + |WithFate(opts, live, entries, Excluded)|
                         + |WithFate(opts, live, entries, Unknown)| + |WithFate(opts, live, entries, Changed)|
                         + |WithFate(opts, live, entries, Unchanged)|
  {
    hide FateOf;
    if entries != [] {
      FatesPartition(opts, live, entries[..|entries| - 1]);
    }
  }

  lemma LastIdNew(entries: seq<Entry>)
    requires BackupText.Distinct(entries) && entries != []
    ensures !Backed(entries[..|entries| - 1], entries[|entries| - 1].id)
  {
    forall i | 0 <= i < |entries| - 1
      ensures entries[i].id != entries[|entries| - 1].id
    {
    }
  }

  lemma BackedSnoc(entries: seq<Entry>, e: Entry)
    ensures forall id :: Backed(entries + [e], id) <==> Backed(entries, id) || id == e.id
  {
    forall id
      ensures Backed(entries + [e], id) <==> Backed(entries, id) || id == e.id
    {
      var all := entries + [e];
      assert all[|entries|] == e;
      if Backed(entries, id) {
        var i :| 0 <= i < |entries| && entries[i].id == id;
        assert all[i].id == id;
      }
    }
  }

  /** With distinct ids the drafts are exactly the changed entries, each with its own value. */
  lemma {:induction false} DraftsExact(opts: Options, live: seq<Parameter>, entries: seq<Entry>)
    requires BackupText.Distinct(entries)
    ensures var d := Drafts(opts, live, entries);
            && (forall i :: 0 <= i < |entries| ==>
                  (entries[i].id in d <==> FateOf(opts, live, entries[i]) == Changed)
                  && (entries[i].id in d ==> d[entries[i].id] == opts.text.show(entries[i].value)))
            && (forall id :: id in d ==> Backed(entries, id))
            && |d| == |WithFate(opts, live, entries, Changed)|
  {
    hide FateOf, Backed;
    if entries != [] {
      var front, last := entries[..|entries| - 1], entries[|entries| - 1];
      DraftsExact(opts, live, front);
      LastIdNew(entries);
      BackedSnoc(front, last);
      assert front + [last] == entries;
    }
  }

  // ----- what is imported, in terms of the ids and values themselves -----

  ghost predicate IsStat(id: string) {
    exists rest :: id == "STAT_" + rest
  }

  predicate AllDigits(s: string) {
    s != "" && forall i :: 0 <= i < |s| ==> '0' <= s[i] <= '9'
  }

  ghost predicate IsPressure(id: string) {
    exists digits :: AllDigits(digits) && id == "BARO" + digits + "_GND_PRESS"
  }

  /** The category of the id is one of those left out. */
  ghost predicate LeftOut(opts: Options, id: string) {
    exists c :: c in opts.excluded && opts.category(id) == Some(c)
  }

  /** The last live parameter with the id has the value. */
  ghost predicate Holds(live: seq<Parameter>, id: string, value: real) {
    exists i :: 0 <= i < |live| && live[i].id == id && live[i].value == value
                && forall j :: i < j < |live| ==> live[j].id != id
  }

  ghost predicate IsLive(live: seq<Parameter>, id: string) {
    exists i :: 0 <= i < |live| && live[i].id == id
  }

  /** A live parameter with the entry's id holds a value more than a ten-thousandth away from the entry's. */
  ghost predicate Differs(live: seq<Parameter>, e: Entry) {
    exists v :: Holds(live, e.id, v) && (v - e.value > 0.0001 || e.value - v > 0.0001)
  }

  lemma StatExactly(id: string)
    ensures HasStatPrefix(id) <==> IsStat(id)
  {
    if HasStatPrefix(id) {
      assert id == "STAT_" + id[5..];
    }
    if rest :| id == "STAT_" + rest {
      assert id[..5] == "STAT_";
    }
  }

  lemma PressureExactly(id: string)
    ensures IsInternalUseOnly(id) <==> IsPressure(id)
  {
    if IsInternalUseOnly(id) {
      var digits := id[4..|id| - 10];
      assert id == id[..4] + digits + id[|id| - 10..];
      assert AllDigits(digits);
    }
    if digits :| AllDigits(digits) && id == "BARO" + digits + "_GND_PRESS" {
      assert id[..4] == "BARO" && id[|id| - 10..] == "_GND_PRESS";
      assert forall i :: 4 <= i < |id| - 10 ==> id[i] == digits[i - 4];
    }
  }

  lemma {:induction false} LookupExactly(live: seq<Parameter>, id: string)
    ensures Lookup(live, id).None? <==> !IsLive(live, id)
    ensures Lookup(live, id).None? ==> forall value :: !Holds(live, id, value)
    ensures Lookup(live, id).Some? ==> forall value :: Holds(live, id, value) <==> value == Lookup(live, id).value.value
  {
    if live != [] {
      var n := |live| - 1;
      LookupExactly(live[..n], id);
      if live[n].id == id {
        forall value
          ensures Holds(live, id, value) <==> value == live[n].value
        {
        }
      } else {
        HoldsEarlier(live, id);
      }
    }
  }

  lemma HoldsEarlier(live: seq<Parameter>, id: string)
    requires live != [] && live[|live| - 1].id != id
    ensures forall value :: Holds(live, id, value) <==> Holds(live[..|live| - 1], id, value)
    ensures IsLive(live, id) <==> IsLive(live[..|live| - 1], id)
  {
    var front := live[..|live| - 1];
    assert forall i :: 0 <= i < |front| ==> front[i] == live[i];
    forall value
      ensures Holds(live, id, value) <==> Holds(front, id, value)
    {
      if i :| 0 <= i < |live| && live[i].id == id && live[i].value == value
              && forall j :: i < j < |live| ==> live[j].id != id {
        assert front[i] == live[i];
        assert Holds(front, id, value);
      }
      if i :| 0 <= i < |front| && front[i].id == id && front[i].value == value
              && forall j :: i < j < |front| ==> front[j].id != id {
        assert live[i] == front[i];
        assert Holds(live, id, value);
      }
    }
    if i :| 0 <= i < |live| && live[i].id == id {
      assert front[i].id == id;
    }
  }

  /** The fate of an entry in terms of its id, its value and the live parameters. */
  lemma FateExactly(opts: Options, live: seq<Parameter>, e: Entry)
    ensures var taken := !IsStat(e.id) && !IsPressure(e.id) && !LeftOut(opts, e.id);
            && (FateOf(opts, live, e) == StatSkipped <==> IsStat(e.id))
            && (FateOf(opts, live, e) == Excluded <==> !IsStat(e.id) && (IsPressure(e.id) || LeftOut(opts, e.id)))
            && (FateOf(opts, live, e) == Unknown <==> taken && !IsLive(live, e.id))
            && (FateOf(opts, live, e) == Unchanged <==> taken && IsLive(live, e.id) && !Differs(live, e))
            && (FateOf(opts, live, e) == Changed <==> taken && Differs(live, e))
  {
    StatExactly(e.id);
    PressureExactly(e.id);
    LookupExactly(live, e.id);
    hide HasStatPrefix, IsInternalUseOnly, IsStat, IsPressure, Lookup, Holds, IsLive;
    assert IsCategoryExcluded(opts, e.id) <==> LeftOut(opts, e.id);
    hide LeftOut;
    if Lookup(live, e.id).Some? {
      assert Holds(live, e.id, Lookup(live, e.id).value.value);
    }
  }

  lemma {:induction false} FateMembers(opts: Options, live: seq<Parameter>, entries: seq<Entry>, fate: Fate)
    ensures forall id :: id in Ids(WithFate(opts, live, entries, fate))
                         <==> exists i :: 0 <= i < |entries| && entries[i].id == id
                                          && FateOf(opts, live, entries[i]) == fate
  {
    hide FateOf;
    if entries != [] {
      var n := |entries| - 1;
      FateMembers(opts, live, entries[..n], fate);
      var before := WithFate(opts, live, entries[..n], fate);
      assert Ids(before + [entries[n]]) == Ids(before) + [entries[n].id];
      assert before + [] == before;
    }
  }

  lemma {:induction false} NewMembers(live: seq<Parameter>, entries: seq<Entry>)
    ensures forall id :: id in NewIds(live, entries)
                         <==> exists i :: 0 <= i < |live| && live[i].id == id && !Backed(entries, id)
                                          && !IsSnapshotExcluded(live[i]) && !IsInternalUseOnly(id)
  {
    hide Backed, IsSnapshotExcluded, IsInternalUseOnly;
    if live != [] {
      NewMembers(live[..|live| - 1], entries);
    }
  }

  /**
   What an import lists, for any live parameters and any entries: the drafts are of exactly the ids
   with an entry that is no STAT_ id, no BARO<digits>_GND_PRESS id and of no category left out, and
   whose value differs from the live one by more than a ten-thousandth; the unknown ids are those of
   such entries without a live parameter; the new ids are those of the live parameters without an
   entry that are no mirrors, not excluded by their definition, and neither STAT_ nor pressure ids.
   */
  lemma ImportExactly(opts: Options, le: (string, string) -> bool, live: seq<Parameter>, entries: seq<Entry>,
                      id: string)
    ensures var r := Import(opts, le, live, entries);
            var taken := !IsStat(id) && !IsPressure(id) && !LeftOut(opts, id);
            && (id in r.drafts <==>
                  taken && exists i :: 0 <= i < |entries| && entries[i].id == id && Differs(live, entries[i]))
            && (id in r.unknownIds <==> taken && !IsLive(live, id) && Backed(entries, id))
            && (id in r.newIds <==>
                  !IsStat(id) && !IsPressure(id) && !Backed(entries, id) && IsOrdinary(live, id))
  {
    hide FateOf, Differs, LeftOut, IsStat, IsPressure, IsLive, HasStatPrefix, IsInternalUseOnly, Drafts, LastChanged;
    Sorting.SortMembers(le, Ids(WithFate(opts, live, entries, Unknown)));
    Sorting.SortMembers(le, NewIds(live, entries));
    FateMembers(opts, live, entries, Unknown);
    NewMembers(live, entries);
    StatExactly(id);
    PressureExactly(id);
    DraftedExactly(opts, live, entries, id);
    forall i | 0 <= i < |entries|
      ensures FateOf(opts, live, entries[i]) == Unknown
              <==> !IsStat(entries[i].id) && !IsPressure(entries[i].id) && !LeftOut(opts, entries[i].id)
                   && !IsLive(live, entries[i].id)
    {
      FateExactly(opts, live, entries[i]);
    }
    assert Import(opts, le, live, entries).drafts == Drafts(opts, live, entries);
  }

  /** A live parameter with the id is neither a mirror nor excluded by its definition. */
  ghost predicate IsOrdinary(live: seq<Parameter>, id: string) {
    exists i :: 0 <= i < |live| && live[i].id == id && !live[i].aliased && !live[i].snapshotExcluded
  }

  lemma DraftedExactly(opts: Options, live: seq<Parameter>, entries: seq<Entry>, id: string)
    ensures id in Drafts(opts, live, entries)
            <==> && !IsStat(id) && !IsPressure(id) && !LeftOut(opts, id)
                 && exists i :: 0 <= i < |entries| && entries[i].id == id && Differs(live, entries[i])
  {
    hide FateOf, Differs, LeftOut, IsStat, IsPressure, Drafts, LastChanged;
    LastChangedDraft(opts, live, entries, id);
    forall i | 0 <= i < |entries|
      ensures FateOf(opts, live, entries[i]) == Changed
              <==> && !IsStat(entries[i].id) && !IsPressure(entries[i].id) && !LeftOut(opts, entries[i].id)
                   && Differs(live, entries[i])
    {
      FateExactly(opts, live, entries[i]);
    }
  }

  /** The unknown ids are listed once an entry, the new ids once a live parameter, and both are in order. */
  lemma ImportSorted(opts: Options, le: (string, string) -> bool, live: seq<Parameter>, entries: seq<Entry>)
    requires Sorting.TotalPreorder(le)
    ensures var r := Import(opts, le, live, entries);
            && Sorting.Ordered(le, r.unknownIds) && Sorting.Ordered(le, r.newIds)
            && multiset(r.unknownIds) == multiset(Ids(WithFate(opts, live, entries, Unknown)))
            && multiset(r.newIds) == multiset(NewIds(live, entries))
  {
    Sorting.SortOrdered(le, Ids(WithFate(opts, live, entries, Unknown)));
    Sorting.SortOrdered(le, NewIds(live, entries));
    Sorting.SortKeeps(le, Ids(WithFate(opts, live, entries, Unknown)));
    Sorting.SortKeeps(le, NewIds(live, entries));
    hide WithFate, NewIds, Drafts, Ids, Sorting.Sort, Sorting.Ordered;
  }

  /** The entries that are no STAT_ entries. */
  function WithoutStat(entries: seq<Entry>): seq<Entry> {
    if entries == [] then []
    else
      var last := entries[|entries| - 1];
      WithoutStat(entries[..|entries| - 1])
      + if |last.id| >= 5 && last.id[..5] == "STAT_" then [] else [last]
  }

  lemma {:induction false} StatNeverListed(opts: Options, live: seq<Parameter>, entries: seq<Entry>, fate: Fate)
    requires fate != StatSkipped
    ensures WithFate(opts, live, WithoutStat(entries), fate) == WithFate(opts, live, entries, fate)
    ensures Drafts(opts, live, WithoutStat(entries)) == Drafts(opts, live, entries)
  {
    if entries != [] {
      var front, last := entries[..|entries| - 1], entries[|entries| - 1];
      StatNeverListed(opts, live, front, fate);
      FateExactly(opts, live, last);
      hide FateOf, IsStat;
      if |last.id| >= 5 && last.id[..5] == "STAT_" {
        assert last.id == "STAT_" + last.id[5..];
        assert IsStat(last.id) by { StatExactly(last.id); }
        assert WithoutStat(entries) == WithoutStat(front);
      } else {
        assert FateOf(opts, live, last) != StatSkipped by { StatExactly(last.id); }
        assert (WithoutStat(front) + [last])[..|WithoutStat(front)|] == WithoutStat(front);
      }
    }
  }

  lemma {:induction false} WithoutStatBacked(entries: seq<Entry>, id: string)
    ensures Backed(WithoutStat(entries), id) <==> Backed(entries, id) && !HasStatPrefix(id)
  {
    hide Backed;
    if entries == [] {
      NothingBacked(id);
    } else {
      var front, last := entries[..|entries| - 1], entries[|entries| - 1];
      WithoutStatBacked(front, id);
      BackedSnoc(front, last);
      BackedSnoc(WithoutStat(front), last);
      assert entries == front + [last] && WithoutStat(front) + [] == WithoutStat(front);
      assert WithoutStat(entries) == WithoutStat(front) + if HasStatPrefix(last.id) then [] else [last];
    }
  }

  lemma NothingBacked(id: string)
    ensures !Backed([], id)
  {
  }

  lemma {:induction false} NewIdsWithoutStat(live: seq<Parameter>, entries: seq<Entry>)
    ensures NewIds(live, WithoutStat(entries)) == NewIds(live, entries)
  {
    hide Backed, WithoutStat, IsInternalUseOnly;
    if live != [] {
      NewIdsWithoutStat(live[..|live| - 1], entries);
      WithoutStatBacked(entries, live[|live| - 1].id);
    }
  }

  /** STAT_ entries make no difference to an import whatsoever. */
  lemma StatEntriesIgnored(opts: Options, le: (string, string) -> bool, live: seq<Parameter>, entries: seq<Entry>)
    ensures Import(opts, le, live, WithoutStat(entries)) == Import(opts, le, live, entries)
  {
    StatNeverListed(opts, live, entries, Changed);
    StatNeverListed(opts, live, entries, Unchanged);
    StatNeverListed(opts, live, entries, Unknown);
    StatNeverListed(opts, live, entries, Excluded);
    NewIdsWithoutStat(live, entries);
    hide WithFate, Drafts, NewIds, WithoutStat, Ids, Sorting.Sort;
  }

  // ----- convergence -----

  /** Writing the drafts to the live set. */
  function Apply(opts: Options, live: seq<Parameter>, drafts: map<string, string>): (s: seq<Parameter>)
    ensures |s| == |live|
  {
    seq(|live|, i requires 0 <= i < |live| => Write(opts, live[i], drafts))
  }

  function Write(opts: Options, p: Parameter, drafts: map<string, string>): Parameter {
    if p.id in drafts && opts.text.read(drafts[p.id]).Some? then
      p.(value := opts.store(opts.text.read(drafts[p.id]).value))
    else p
  }

  ghost predicate Faithful(opts: Options, entries: seq<Entry>) {
    forall i :: 0 <= i < |entries| ==> opts.text.read(opts.text.show(entries[i].value)) == Some(entries[i].value)
  }

  lemma {:induction false} LookupApply(opts: Options, live: seq<Parameter>, drafts: map<string, string>, id: string)
    ensures var p := Lookup(live, id);
            Lookup(Apply(opts, live, drafts), id) == if p.Some? then Some(Write(opts, p.value, drafts)) else None
    ensures Lookup(live, id).Some? ==> Lookup(live, id).value.id == id
  {
    if live != [] {
      var n := |live| - 1;
      assert Apply(opts, live, drafts)[..n] == Apply(opts, live[..n], drafts);
      LookupApply(opts, live[..n], drafts, id);
    }
  }

  /** The value of the last changed entry with the id: the one its draft holds. */
  function LastChanged(opts: Options, live: seq<Parameter>, entries: seq<Entry>, id: string): Option<real> {
    if entries == [] then None
    else
      var last := entries[|entries| - 1];
      if last.id == id && FateOf(opts, live, last) == Changed then Some(last.value)
      else LastChanged(opts, live, entries[..|entries| - 1], id)
  }

  lemma {:induction false} LastChangedDraft(opts: Options, live: seq<Parameter>, entries: seq<Entry>, id: string)
    ensures var v := LastChanged(opts, live, entries, id); var d := Drafts(opts, live, entries);
            && (id in d <==> v.Some?)
            && (v.Some? ==> d[id] == opts.text.show(v.value))
            && (v.Some? ==> exists i :: 0 <= i < |entries| && entries[i].id == id && entries[i].value == v.value
                                        && FateOf(opts, live, entries[i]) == Changed)
            && (v.None? ==> forall i :: 0 <= i < |entries| && entries[i].id == id ==>
                              FateOf(opts, live, entries[i]) != Changed)
  {
    hide FateOf;
    if entries != [] {
      var n := |entries| - 1;
      LastChangedDraft(opts, live, entries[..n], id);
      if entries[n].id == id && FateOf(opts, live, entries[n]) == Changed {
        assert LastChanged(opts, live, entries, id) == Some(entries[n].value);
      } else if LastChanged(opts, live, entries[..n], id).Some? {
        var i :| 0 <= i < n && entries[..n][i].id == id && FateOf(opts, live, entries[..n][i]) == Changed
                 && entries[..n][i].value == LastChanged(opts, live, entries[..n], id).value;
        assert entries[i] == entries[..n][i];
      }
    }
  }

  /** Those of the drafts whose ids are written. */
  function Only(drafts: map<string, string>, written: set<string>): map<string, string> {
    map id | id in drafts && id in written :: drafts[id]
  }

  predicate IsMatched(fate: Fate) {
    fate == Changed || fate == Unchanged
  }

  /** The fate of an entry once the drafts of the ids `written` are in the live set. */
  function FateAfterWriting(opts: Options, live: seq<Parameter>, entries: seq<Entry>, written: set<string>, e: Entry)
      : Fate
  {
    var fate, v := FateOf(opts, live, e), LastChanged(opts, live, entries, e.id);
    if IsMatched(fate) && e.id in written && v.Some? then
      if ValuesMatch(opts.store(v.value), e.value) then Unchanged else Changed
    else fate
  }

  lemma FateAfter(opts: Options, live: seq<Parameter>, entries: seq<Entry>, written: set<string>, i: nat)
    requires Faithful(opts, entries) && i < |entries|
    ensures FateOf(opts, Apply(opts, live, Only(Drafts(opts, live, entries), written)), entries[i])
            == FateAfterWriting(opts, live, entries, written, entries[i])
  {
    hide HasStatPrefix, IsInternalUseOnly, Drafts, LastChanged;
    var e := entries[i];
    LastChangedDraft(opts, live, entries, e.id);
    LookupApply(opts, live, Only(Drafts(opts, live, entries), written), e.id);
    var v := LastChanged(opts, live, entries, e.id);
    if v.Some? {
      assert opts.text.read(opts.text.show(v.value)) == v;
    }
  }

  /** An import lists nothing under a fate, and drafts nothing, exactly when no entry has it. */
  lemma {:induction false} NoneWithFate(opts: Options, live: seq<Parameter>, entries: seq<Entry>, fate: Fate)
    ensures WithFate(opts, live, entries, fate) == []
            <==> forall i :: 0 <= i < |entries| ==> FateOf(opts, live, entries[i]) != fate
    ensures WithFate(opts, live, entries, Changed) == [] ==> Drafts(opts, live, entries) == map[]
  {
    hide FateOf;
    if entries != [] {
      NoneWithFate(opts, live, entries[..|entries| - 1], fate);
    }
  }

  /** How the other lists look when two imports agree on which entries are matched and on the fates of the rest. */
  lemma {:induction false} FatesShift(opts: Options, live: seq<Parameter>, restored: seq<Parameter>,
                                      entries: seq<Entry>)
    requires forall i :: 0 <= i < |entries| ==>
               var before, after := FateOf(opts, live, entries[i]), FateOf(opts, restored, entries[i]);
               (IsMatched(before) <==> IsMatched(after)) && (!IsMatched(before) ==> before == after)
    ensures WithFate(opts, restored, entries, Unknown) == WithFate(opts, live, entries, Unknown)
    ensures WithFate(opts, restored, entries, Excluded) == WithFate(opts, live, entries, Excluded)
    ensures |WithFate(opts, restored, entries, Changed)| + |WithFate(opts, restored, entries, Unchanged)|
            == |WithFate(opts, live, entries, Changed)| + |WithFate(opts, live, entries, Unchanged)|
  {
    hide FateOf;
    if entries != [] {
      FatesShift(opts, live, restored, entries[..|entries| - 1]);
    }
  }

  lemma {:induction false} NewIdsApply(opts: Options, live: seq<Parameter>, drafts: map<string, string>,
                                       entries: seq<Entry>)
    ensures NewIds(Apply(opts, live, drafts), entries) == NewIds(live, entries)
  {
    hide Backed, IsInternalUseOnly, HasStatPrefix;
    if live != [] {
      var n := |live| - 1;
      assert Apply(opts, live, drafts)[..n] == Apply(opts, live[..n], drafts);
      NewIdsApply(opts, live[..n], drafts, entries);
    }
  }

  /**
   For every matched entry whose id has a changed entry: the id is written and the value agrees
   with the last changed one.
   */
  ghost predicate Settles(opts: Options, live: seq<Parameter>, entries: seq<Entry>, written: set<string>) {
    forall i :: 0 <= i < |entries| && IsMatched(FateOf(opts, live, entries[i])) ==>
      var v := LastChanged(opts, live, entries, entries[i].id);
      v.Some? ==> entries[i].id in written && ValuesMatch(opts.store(v.value), entries[i].value)
  }

  lemma NothingChangedExactly(opts: Options, live: seq<Parameter>, entries: seq<Entry>, written: set<string>)
    ensures (forall i :: 0 <= i < |entries| ==> FateAfterWriting(opts, live, entries, written, entries[i]) != Changed)
            <==> Settles(opts, live, entries, written)
  {
    hide FateOf, LastChanged;
    forall i | 0 <= i < |entries|
      ensures LastChanged(opts, live, entries, entries[i].id).None? ==> FateOf(opts, live, entries[i]) != Changed
    {
      LastChangedDraft(opts, live, entries, entries[i].id);
    }
    if Settles(opts, live, entries, written) {
    } else {
      var i :| 0 <= i < |entries| && IsMatched(FateOf(opts, live, entries[i]))
               && var v := LastChanged(opts, live, entries, entries[i].id);
                  v.Some? && !(entries[i].id in written && ValuesMatch(opts.store(v.value), entries[i].value));
      if entries[i].id !in written {
        LastChangedDraft(opts, live, entries, entries[i].id);
        var j :| 0 <= j < |entries| && entries[j].id == entries[i].id && FateOf(opts, live, entries[j]) == Changed;
        assert FateAfterWriting(opts, live, entries, written, entries[j]) == Changed;
      } else {
        assert FateAfterWriting(opts, live, entries, written, entries[i]) == Changed;
      }
    }
  }

  /**
   Importing again after the drafts of the ids `written` were written: the unknown, new, excluded
   and matched entries are the same, and nothing is reported as changed exactly when every entry
   settles. Ids may repeat.
   */
  lemma SecondImport(opts: Options, le: (string, string) -> bool, live: seq<Parameter>, entries: seq<Entry>,
                     written: set<string>)
    requires Faithful(opts, entries)
    ensures var first := Import(opts, le, live, entries);
            var second := Import(opts, le, Apply(opts, live, Only(first.drafts, written)), entries);
            && second.unknownIds == first.unknownIds && second.newIds == first.newIds
            && second.excluded == first.excluded && second.matched == first.matched
            && (second.changed == 0 <==> Settles(opts, live, entries, written))
            && (second.changed == 0 ==> second.drafts == map[])
  {
    hide FateOf, Settles, Drafts, LastChanged;
    var drafts := Only(Drafts(opts, live, entries), written);
    var restored := Apply(opts, live, drafts);
    forall i | 0 <= i < |entries|
      ensures FateOf(opts, restored, entries[i]) == FateAfterWriting(opts, live, entries, written, entries[i])
    {
      FateAfter(opts, live, entries, written, i);
    }
    FatesShift(opts, live, restored, entries);
    NewIdsApply(opts, live, drafts, entries);
    NoneWithFate(opts, restored, entries, Changed);
    NothingChangedExactly(opts, live, entries, written);
  }

  lemma OnlyAll(drafts: map<string, string>)
    ensures Only(drafts, drafts.Keys) == drafts
  {
  }

  /**
   Restore converges exactly when, for every matched entry whose id has a changed entry, its value
   matches what the controller stores of the last changed entry of the id.
   */
  lemma ConvergesExactly(opts: Options, le: (string, string) -> bool, live: seq<Parameter>, entries: seq<Entry>)
    requires Faithful(opts, entries)
    ensures var first := Import(opts, le, live, entries);
            var second := Import(opts, le, Apply(opts, live, first.drafts), entries);
            second.changed == 0
            <==> forall i :: 0 <= i < |entries| && IsMatched(FateOf(opts, live, entries[i])) ==>
                   var v := LastChanged(opts, live, entries, entries[i].id);
                   v.Some? ==> ValuesMatch(opts.store(v.value), entries[i].value)
  {
    hide Import, FateOf, LastChanged, Drafts;
    var drafts := Drafts(opts, live, entries);
    assert Import(opts, le, live, entries).drafts == drafts by { ImportDrafts(opts, le, live, entries); }
    OnlyAll(drafts);
    SecondImport(opts, le, live, entries, drafts.Keys);
    forall i | 0 <= i < |entries|
      ensures LastChanged(opts, live, entries, entries[i].id).Some? ==> entries[i].id in drafts
    {
      LastChangedDraft(opts, live, entries, entries[i].id);
    }
  }

  lemma ImportDrafts(opts: Options, le: (string, string) -> bool, live: seq<Parameter>, entries: seq<Entry>)
    ensures Import(opts, le, live, entries).drafts == Drafts(opts, live, entries)
  {
  }

  /** With distinct ids the last changed entry of an id is the only one. */
  lemma DistinctSettles(opts: Options, live: seq<Parameter>, entries: seq<Entry>, i: nat)
    requires BackupText.Distinct(entries) && i < |entries|
    ensures var v := LastChanged(opts, live, entries, entries[i].id);
            v == if FateOf(opts, live, entries[i]) == Changed then Some(entries[i].value) else None
  {
    hide FateOf, LastChanged;
    var v := LastChanged(opts, live, entries, entries[i].id);
    LastChangedDraft(opts, live, entries, entries[i].id);
    if v.Some? {
      var j :| 0 <= j < |entries| && entries[j].id == entries[i].id && entries[j].value == v.value
               && FateOf(opts, live, entries[j]) == Changed;
      assert j == i;
    }
  }

  /**
   With distinct ids restore converges exactly when the controller stores every changed value
   within the import's tolerance. The unknown, new, excluded and matched entries are always the same.
   */
  lemma RestoreConverges(opts: Options, le: (string, string) -> bool, live: seq<Parameter>, entries: seq<Entry>)
    requires BackupText.Distinct(entries) && Faithful(opts, entries)
    ensures var first := Import(opts, le, live, entries);
            var second := Import(opts, le, Apply(opts, live, first.drafts), entries);
            && (second.changed == 0
                <==> forall i :: 0 <= i < |entries| && FateOf(opts, live, entries[i]) == Changed ==>
                       ValuesMatch(opts.store(entries[i].value), entries[i].value))
            && (second.changed == 0 ==> second.drafts == map[])
            && second.unknownIds == first.unknownIds && second.newIds == first.newIds
            && second.excluded == first.excluded && second.matched == first.matched
  {
    hide Import, FateOf, LastChanged, Drafts;
    ImportDrafts(opts, le, live, entries);
    var drafts := Drafts(opts, live, entries);
    OnlyAll(drafts);
    SecondImport(opts, le, live, entries, drafts.Keys);
    forall i | 0 <= i < |entries|
      ensures LastChanged(opts, live, entries, entries[i].id)
              == if FateOf(opts, live, entries[i]) == Changed then Some(entries[i].value) else None
      ensures FateOf(opts, live, entries[i]) == Changed ==> entries[i].id in drafts
    {
      DistinctSettles(opts, live, entries, i);
      LastChangedDraft(opts, live, entries, entries[i].id);
    }
  }

  /** A backup that lists one id with values too far apart does not converge: 1 and 2 for a parameter that is 0. */
  lemma RepeatedIdDiverges(opts: Options, le: (string, string) -> bool)
    requires opts.excluded == {} && Faithful(opts, [BackupText.Entry("A", 1.0), BackupText.Entry("A", 2.0)])
    requires opts.store(2.0) == 2.0
    ensures var live := [Parameter("A", 0.0, false, false)];
            var entries := [BackupText.Entry("A", 1.0), BackupText.Entry("A", 2.0)];
            var first := Import(opts, le, live, entries);
            Import(opts, le, Apply(opts, live, first.drafts), entries).changed > 0
  {
    var live := [Parameter("A", 0.0, false, false)];
    var entries := [BackupText.Entry("A", 1.0), BackupText.Entry("A", 2.0)];
    hide Import;
    ConvergesExactly(opts, le, live, entries);
    assert FateOf(opts, live, entries[0]) == Changed && FateOf(opts, live, entries[1]) == Changed;
    assert LastChanged(opts, live, entries, entries[0].id) == Some(2.0);
  }

  /** Neither does 5000.3, which single precision keeps as 5000.2998046875. */
  lemma StoredValueDiverges(opts: Options, le: (string, string) -> bool)
    requires opts.excluded == {} && Faithful(opts, [BackupText.Entry("A", 5000.3)])
    requires opts.store(5000.3) == 5000.2998046875
    ensures var live := [Parameter("A", 0.0, false, false)];
            var entries := [BackupText.Entry("A", 5000.3)];
            var first := Import(opts, le, live, entries);
            Import(opts, le, Apply(opts, live, first.drafts), entries).changed > 0
  {
    var live := [Parameter("A", 0.0, false, false)];
    var entries := [BackupText.Entry("A", 5000.3)];
    hide Import;
    RestoreConverges(opts, le, live, entries);
    assert FateOf(opts, live, entries[0]) == Changed;
  }

  // ----- export, then import -----

  datatype ExportOptions = ExportOptions(
    category: string -> Option<Category>, excluded: set<Category>, only: Option<set<string>>)

  predicate IsExported(opts: ExportOptions, p: Parameter) {
    && !IsSnapshotExcluded(p)
    && (opts.only.Some? ==> p.id in opts.only.value)
    && !(opts.category(p.id).Some? && opts.category(p.id).value in opts.excluded)
  }

  function EntryOf(p: Parameter): Entry {
    BackupText.Entry(p.id, p.value)
  }

  function Exported(opts: ExportOptions, live: seq<Parameter>): seq<Entry> {
    if live == [] then []
    else
      var p := live[|live| - 1];
      Exported(opts, live[..|live| - 1]) + if IsExported(opts, p) then [EntryOf(p)] else []
  }

  /** The parameter list of `createParameterBackup`. */
  function CreateBackup(opts: ExportOptions, le: (string, string) -> bool, live: seq<Parameter>): seq<Entry> {
    BackupText.Sort(le, Exported(opts, live))
  }

  lemma {:induction false} ExportedFrom(opts: ExportOptions, live: seq<Parameter>)
    ensures forall e :: e in Exported(opts, live) <==>
              exists i :: 0 <= i < |live| && IsExported(opts, live[i]) && e == EntryOf(live[i])
  {
    hide IsExported;
    if live != [] {
      var front, p := live[..|live| - 1], live[|live| - 1];
      ExportedFrom(opts, front);
      forall e
        ensures e in Exported(opts, live) <==>
                exists i :: 0 <= i < |live| && IsExported(opts, live[i]) && e == EntryOf(live[i])
      {
        if i :| 0 <= i < |front| && IsExported(opts, front[i]) && e == EntryOf(front[i]) {
          assert live[i] == front[i];
        } else if IsExported(opts, p) && e == EntryOf(p) {
          assert live[|front|] == p;
        }
      }
    }
  }

  ghost predicate DistinctLive(live: seq<Parameter>) {
    forall i, j :: 0 <= i < j < |live| ==> live[i].id != live[j].id
  }

  lemma {:induction false} LookupOwn(live: seq<Parameter>, i: nat)
    requires DistinctLive(live) && i < |live|
    ensures Lookup(live, live[i].id) == Some(live[i])
  {
    if i < |live| - 1 {
      LookupOwn(live[..|live| - 1], i);
    }
  }

  lemma {:induction false} NothingNew(live: seq<Parameter>, entries: seq<Entry>)
    requires forall i :: 0 <= i < |live| ==>
               Backed(entries, live[i].id) || IsSnapshotExcluded(live[i]) || IsInternalUseOnly(live[i].id)
    ensures NewIds(live, entries) == []
  {
    hide Backed, IsSnapshotExcluded, IsInternalUseOnly;
    if live != [] {
      NothingNew(live[..|live| - 1], entries);
    }
  }

  /**
   Exporting a snapshot with default options and importing it against that same snapshot is a
   no-op, whatever categories the import strips and although mirrors, STAT_ entries and
   firmware-managed ids are filtered at different points.
   */
  lemma SelfImportIsNoOp(opts: Options, le: (string, string) -> bool, live: seq<Parameter>)
    requires DistinctLive(live)
    ensures var backup := CreateBackup(ExportOptions(opts.category, {}, None), le, live);
            var r := Import(opts, le, live, backup);
            && r.changed == 0 && r.drafts == map[] && r.unknownIds == [] && r.newIds == []
            && r.kept + r.excluded == |backup|
  {
    hide HasStatPrefix, IsInternalUseOnly, IsCategoryExcluded;
    var defaults := ExportOptions(opts.category, {}, None);
    var backup := CreateBackup(defaults, le, live);
    ExportedFrom(defaults, live);
    Sorting.SortMembers(BackupText.ById(le), Exported(defaults, live));
    forall k | 0 <= k < |backup|
      ensures FateOf(opts, live, backup[k]) == Excluded || FateOf(opts, live, backup[k]) == Unchanged
    {
      assert backup[k] in backup;
      var i :| 0 <= i < |live| && IsExported(defaults, live[i]) && backup[k] == EntryOf(live[i]);
      LookupOwn(live, i);
    }
    NoneWithFate(opts, live, backup, Changed);
    NoneWithFate(opts, live, backup, Unknown);
    NoneWithFate(opts, live, backup, StatSkipped);
    FatesPartition(opts, live, backup);
    forall i | 0 <= i < |live|
      ensures Backed(backup, live[i].id) || IsSnapshotExcluded(live[i]) || IsInternalUseOnly(live[i].id)
    {
      if !IsSnapshotExcluded(live[i]) {
        assert IsExported(defaults, live[i]);
        var e := EntryOf(live[i]);
        assert e in backup;
        var k :| 0 <= k < |backup| && backup[k] == e;
        assert backup[k].id == live[i].id;
      }
    }
    NothingNew(live, backup);
  }

  lemma {:induction false} ExportedDistinct(opts: ExportOptions, live: seq<Parameter>)
    requires DistinctLive(live)
    ensures BackupText.Distinct(Exported(opts, live))
  {
    hide IsExported;
    if live != [] {
      ExportedDistinct(opts, live[..|live| - 1]);
      var front, p := live[..|live| - 1], live[|live| - 1];
      ExportedFrom(opts, front);
      forall e | e in Exported(opts, front)
        ensures e.id != p.id
      {
        var i :| 0 <= i < |front| && IsExported(opts, front[i]) && e == EntryOf(front[i]);
        assert live[i] == front[i];
      }
    }
  }

  /** What a created backup lists: mirrors, parameters their definition excludes and STAT_ ids are never exported. */
  lemma ExportedExactly(opts: ExportOptions, le: (string, string) -> bool, live: seq<Parameter>, e: Entry)
    ensures e in CreateBackup(opts, le, live)
            <==> exists i :: 0 <= i < |live| && e.id == live[i].id && e.value == live[i].value
                   && !live[i].aliased && !live[i].snapshotExcluded && !IsStat(e.id)
                   && (opts.only == None || e.id in opts.only.value)
                   && !(exists c :: c in opts.excluded && opts.category(e.id) == Some(c))
  {
    StatExactly(e.id);
    ExportedFrom(opts, live);
    Sorting.SortMembers(BackupText.ById(le), Exported(opts, live));
    hide HasStatPrefix, IsStat, Exported;
  }

  /**
   The export's documentation says that BARO<digits>_GND_PRESS ids are always left out of it; the
   code lists them, and only the import drops them.
   */
  lemma PressureIsExported(opts: Options, le: (string, string) -> bool)
    ensures var live := [Parameter("BARO1_GND_PRESS", 101325.0, false, false)];
            var e := BackupText.Entry("BARO1_GND_PRESS", 101325.0);
            e in CreateBackup(ExportOptions(opts.category, {}, None), le, live) && FateOf(opts, live, e) == Excluded
  {
    var live := [Parameter("BARO1_GND_PRESS", 101325.0, false, false)];
    var e := BackupText.Entry("BARO1_GND_PRESS", 101325.0);
    StatExactly(e.id);
    assert e.id[..5][0] == 'B' && "STAT_"[0] == 'S';
    ExportedExactly(ExportOptions(opts.category, {}, None), le, live, e);
    assert live[0].id == e.id;
    hide CreateBackup, FateOf, IsStat;
    FateExactly(opts, live, e);
    assert AllDigits("1") && e.id == "BARO" + "1" + "_GND_PRESS";
  }

  /** A created backup is in order and lists each exported parameter once. */
  lemma CreatedBackup(opts: ExportOptions, le: (string, string) -> bool, live: seq<Parameter>)
    requires DistinctLive(live) && Sorting.TotalPreorder(le)
    ensures var entries := CreateBackup(opts, le, live);
            && Sorting.Ordered(BackupText.ById(le), entries) && BackupText.Distinct(entries)
            && (forall e :: e in entries <==>
                  exists i :: 0 <= i < |live| && IsExported(opts, live[i]) && e == EntryOf(live[i]))
  {
    hide IsExported;
    var exported, byId := Exported(opts, live), BackupText.ById(le);
    ExportedDistinct(opts, live);
    ExportedFrom(opts, live);
    Sorting.SortMembers(byId, exported);
    Sorting.ByPreorder((e: Entry) => e.id, le);
    Sorting.SortOrdered(byId, exported);
    Sorting.SortUnique(byId, (e: Entry) => e.id, exported);
  }

  predicate IsStripped(opts: Options, id: string) {
    IsInternalUseOnly(id) || IsCategoryExcluded(opts, id)
  }

  /** The fate, in its own controller, of an exported entry whose value has become another. */
  lemma OwnFate(opts: Options, le: (string, string) -> bool, live: seq<Parameter>, k: nat, value: real)
    requires DistinctLive(live) && k < |CreateBackup(ExportOptions(opts.category, {}, None), le, live)|
    ensures var e := CreateBackup(ExportOptions(opts.category, {}, None), le, live)[k];
            FateOf(opts, live, BackupText.Entry(e.id, value))
            == if IsStripped(opts, e.id) then Excluded else if ValuesMatch(e.value, value) then Unchanged else Changed
  {
    hide HasStatPrefix, IsInternalUseOnly, IsCategoryExcluded;
    var defaults := ExportOptions(opts.category, {}, None);
    var backup := CreateBackup(defaults, le, live);
    ExportedFrom(defaults, live);
    Sorting.SortMembers(BackupText.ById(le), Exported(defaults, live));
    assert backup[k] in backup;
    var i :| 0 <= i < |live| && IsExported(defaults, live[i]) && backup[k] == EntryOf(live[i]);
    LookupOwn(live, i);
  }

  lemma NewIdsById(live: seq<Parameter>, entries: seq<Entry>, others: seq<Entry>)
    requires forall id :: Backed(entries, id) <==> Backed(others, id)
    ensures NewIds(live, entries) == NewIds(live, others)
  {
    hide Backed, IsSnapshotExcluded, IsInternalUseOnly;
    if live != [] {
      NewIdsById(live[..|live| - 1], entries, others);
    }
  }

  lemma RoundBacked(num: BackupText.Numerals, entries: seq<Entry>)
    ensures forall id :: Backed(entries, id) <==> Backed(BackupText.RoundAll(num, entries), id)
  {
    var rounded := BackupText.RoundAll(num, entries);
    forall id
      ensures Backed(entries, id) <==> Backed(rounded, id)
    {
      assert forall i :: 0 <= i < |entries| ==> rounded[i].id == entries[i].id;
    }
  }

  /** Parsing an exported file gives the exported entries, rounded, in the same order. */
  lemma OwnFileReads(opts: ExportOptions, num: BackupText.Numerals, le: (string, string) -> bool,
                     json: string -> Result<seq<Entry>, BackupText.ParseError>,
                     b: BackupText.Backup, live: seq<Parameter>, text: string)
    requires DistinctLive(live) && Sorting.TotalPreorder(le) && b.parameters == CreateBackup(opts, le, live)
    requires BackupText.CleanFields(b) && BackupText.Printable(num, b.parameters)
    requires text == BackupText.PrintParm(num, b) || text == BackupText.PrintParams(num, b)
    ensures BackupText.ParseBackup(num, le, json, text)
            == if b.parameters == [] then Err(BackupText.Empty) else Ok(BackupText.RoundAll(num, b.parameters))
  {
    CreatedBackup(opts, le, live);
    BackupText.TextReads(num, le, json, b, text);
    BackupText.RoundKeepsOrder(num, le, b.parameters);
    Sorting.SortIdempotent(BackupText.ById(le), BackupText.RoundAll(num, b.parameters));
    hide BackupText.ParseBackup, BackupText.RoundAll, CreateBackup, BackupText.CleanFields, BackupText.Distinct,
      Sorting.Sort, Sorting.TotalPreorder, BackupText.PrintParm, BackupText.PrintParams;
  }

  /**
   A snapshot exported to a file in either text format and imported into the controller it came
   from: no id is unknown or new, each entry is excluded, unchanged or changed by whether its
   rounded value still matches, and so nothing is reported exactly when every entry that is not
   stripped survives the rounding within the tolerance.
   */
  lemma FileImportExactly(opts: Options, num: BackupText.Numerals, le: (string, string) -> bool,
                          json: string -> Result<seq<Entry>, BackupText.ParseError>,
                          b: BackupText.Backup, live: seq<Parameter>, text: string)
    requires DistinctLive(live) && Sorting.TotalPreorder(le)
    requires b.parameters == CreateBackup(ExportOptions(opts.category, {}, None), le, live)
    requires BackupText.CleanFields(b) && BackupText.Printable(num, b.parameters)
    requires text == BackupText.PrintParm(num, b) || text == BackupText.PrintParams(num, b)
    ensures var parsed := BackupText.ParseBackup(num, le, json, text);
            && (parsed.Err? <==> b.parameters == [])
            && (parsed.Ok? ==>
                  && parsed.value == BackupText.RoundAll(num, b.parameters)
                  && (forall i :: 0 <= i < |b.parameters| ==>
                        FateOf(opts, live, parsed.value[i])
                        == if IsStripped(opts, b.parameters[i].id) then Excluded
                           else if SurvivesRounding(num, b.parameters[i]) then Unchanged else Changed)
                  && var r := Import(opts, le, live, parsed.value);
                     && r.unknownIds == [] && r.newIds == []
                     && (r.changed == 0 <==> forall i :: 0 <= i < |b.parameters| ==>
                           IsStripped(opts, b.parameters[i].id) || SurvivesRounding(num, b.parameters[i]))
                     && (r.changed == 0 ==> r.drafts == map[]))
  {
    hide FateOf, BackupText.ParseBackup, BackupText.PrintParm, BackupText.PrintParams, CreateBackup, IsStripped,
      ValuesMatch, BackupText.CleanFields, BackupText.Printable, Sorting.TotalPreorder, Sorting.Sort, NewIds, Drafts;
    var backup := b.parameters;
    OwnFileReads(ExportOptions(opts.category, {}, None), num, le, json, b, live, text);
    var rounded := BackupText.RoundAll(num, backup);
    forall i | 0 <= i < |backup|
      ensures FateOf(opts, live, rounded[i])
              == if IsStripped(opts, backup[i].id) then Excluded
                 else if SurvivesRounding(num, backup[i]) then Unchanged else Changed
    {
      OwnFate(opts, le, live, i, rounded[i].value);
    }
    NoneWithFate(opts, live, rounded, Changed);
    NoneWithFate(opts, live, rounded, Unknown);
    RoundBacked(num, backup);
    NewIdsById(live, backup, rounded);
    SelfImportNewIds(opts, le, live);
    SortNothing(le);
  }

  /** The value still matches after it was printed with seven digits and read back. */
  predicate SurvivesRounding(num: BackupText.Numerals, e: Entry) {
    ValuesMatch(e.value, BackupText.Rounded(num, e.value))
  }

  lemma SortNothing(le: (string, string) -> bool)
    ensures Sorting.Sort(le, Ids([])) == []
    ensures Sorting.Sort(le, []) == []
  {
  }

  lemma SelfImportNewIds(opts: Options, le: (string, string) -> bool, live: seq<Parameter>)
    requires DistinctLive(live)
    ensures NewIds(live, CreateBackup(ExportOptions(opts.category, {}, None), le, live)) == []
  {
    var backup := CreateBackup(ExportOptions(opts.category, {}, None), le, live);
    SelfImportIsNoOp(opts, le, live);
    Sorting.SortMembers(le, NewIds(live, backup));
    hide CreateBackup, NewIds, Sorting.Sort;
  }

  /**
   123456.703125 prints as 123456.7: the file of a controller that holds it reports a change in
   that same controller.
   */
  lemma FileImportReportsChange(opts: Options, num: BackupText.Numerals, le: (string, string) -> bool,
                                json: string -> Result<seq<Entry>, BackupText.ParseError>, b: BackupText.Backup)
    requires opts.category("A") == None && Sorting.TotalPreorder(le) && BackupText.CleanFields(b)
    requires num.print7(123456.703125) == "123456.7" && num.read("123456.7") == Some(123456.7)
    requires b.parameters == [BackupText.Entry("A", 123456.703125)]
    ensures var live := [Parameter("A", 123456.703125, false, false)];
            var parsed := BackupText.ParseBackup(num, le, json, BackupText.PrintParm(num, b));
            parsed.Ok? && Import(opts, le, live, parsed.value).changed > 0
  {
    var live := [Parameter("A", 123456.703125, false, false)];
    OneExported(opts, le, live[0]);
    assert BackupText.Printable(num, b.parameters);
    hide BackupText.ParseBackup, BackupText.PrintParm, BackupText.PrintParams, BackupText.CleanFields,
      Import, CreateBackup, Sorting.TotalPreorder;
    FileImportExactly(opts, num, le, json, b, live, BackupText.PrintParm(num, b));
    assert !SurvivesRounding(num, b.parameters[0]) && !IsStripped(opts, b.parameters[0].id);
  }

  lemma OneExported(opts: Options, le: (string, string) -> bool, p: Parameter)
    requires p.id == "A" && !p.aliased && !p.snapshotExcluded
    ensures CreateBackup(ExportOptions(opts.category, {}, None), le, [p]) == [BackupText.Entry(p.id, p.value)]
  {
    var defaults := ExportOptions(opts.category, {}, None);
    assert [p][..0] == [];
    assert IsExported(defaults, p);
    var exported := [BackupText.Entry(p.id, p.value)];
    assert Exported(defaults, [p][..0]) == [];
    assert Exported(defaults, [p]) == [] + exported == exported;
    Sorting.SortIdempotent(BackupText.ById(le), exported);
  }
}
