/**
 Validation and grouping of parameter drafts.

 Numbers are finite: a real, with JavaScript's negative zero kept apart because the enum check
 compares with `Object.is`. The number syntax, the tolerance test, the gain and family name
 patterns and `localeCompare` are parameters of everything that uses them.
 */
module DraftValidation {
  import opened Collections
  import opened Texts
  import opened Octets
  import Sorting

  datatype Number = NegativeZero | Plain(amount: real)

  function Value(n: Number): real {
    if n.NegativeZero? then 0.0 else n.amount
  }

  datatype Definition = Definition(
    title: string, category: string, minimum: Option<real>, maximum: Option<real>,
    options: Option<seq<Number>>, bitmask: bool)

  datatype Parameter = Parameter(id: string, value: real, definition: Option<Definition>)

  datatype Status = Unchanged | Staged | Invalid

  datatype Reason =
    | NotInSnapshot | Blank | NotFinite | NegativeGain | BelowMinimum(minimum: real) | AboveMaximum(maximum: real)
    | AboveBits(ceiling: real, bits: nat) | OutsideEnum | MatchesCurrent

  /** `override` and `overridable` are None where the entry does not carry them. */
  datatype Entry = Entry(
    id: string, title: string, category: string, definition: Option<Definition>, rawValue: string,
    currentValue: Option<real>, nextValue: Option<Number>, delta: Option<real>, status: Status,
    reason: Option<Reason>, override: Option<bool>, overridable: Option<bool>)

  /** `read` is the number syntax, None when not finite; `same` is the tolerance of the write path. */
  datatype Environment = Environment(
    read: string -> Option<Number>, same: (real, real) -> bool, isGain: string -> bool,
    family: string -> Option<string>)

  // ----- bits -----

  predicate Bit(n: nat, k: nat) {
    if k == 0 then n % 2 == 1 else Bit(n / 2, k - 1)
  }

  /** Bitwise OR. */
  function Or(a: nat, b: nat): nat {
    if a == 0 && b == 0 then 0
    else (if a % 2 == 1 || b % 2 == 1 then 1 else 0) + 2 * Or(a / 2, b / 2)
  }

  lemma {:induction false} OrBit(a: nat, b: nat, k: nat)
    ensures Bit(Or(a, b), k) <==> Bit(a, k) || Bit(b, k)
  {
    if a == 0 && b == 0 {
      NoBit(k);
    } else if k > 0 {
      OrBit(a / 2, b / 2, k - 1);
      assert Or(a, b) / 2 == Or(a / 2, b / 2);
    }
  }

  lemma {:induction false} NoBit(k: nat)
    ensures !Bit(0, k)
  {
    if k > 0 {
      NoBit(k - 1);
    }
  }

  /** `1 << j` has bit `j` and no other. */
  lemma {:induction false} ShiftBit(j: nat, k: nat)
    ensures Bit(Pow2(j), k) <==> j == k
  {
    if j > 0 && k > 0 {
      ShiftBit(j - 1, k - 1);
    } else if k > 0 {
      NoBit(k - 1);
    }
  }

  /** A number all of whose bits another has is not greater. */
  lemma {:induction false} FewerBits(a: nat, b: nat)
    requires forall k: nat :: Bit(a, k) ==> Bit(b, k)
    ensures a <= b
  {
    if a > 0 {
      forall k: nat | Bit(a / 2, k)
        ensures Bit(b / 2, k)
      {
        assert Bit(a, k + 1);
      }
      FewerBits(a / 2, b / 2);
      assert Bit(a, 0) ==> Bit(b, 0);
    }
  }

  lemma {:induction false} LowBit(a: nat, n: nat, k: nat)
    requires a < Pow2(n) && Bit(a, k)
    ensures k < n
  {
    if n == 0 {
      NoBit(k);
    } else if k > 0 {
      LowBit(a / 2, n - 1, k - 1);
    }
  }

  lemma {:induction false} HighBit(a: nat, n: nat) returns (k: nat)
    requires a >= Pow2(n)
    ensures k >= n && Bit(a, k)
  {
    if n > 0 {
      var j := HighBit(a / 2, n - 1);
      k := j + 1;
    } else if a % 2 == 1 {
      k := 0;
    } else {
      var j := HighBit(a / 2, 0);
      k := j + 1;
    }
  }

  lemma HighBitsClear(a: nat, n: nat)
    requires forall k: nat :: Bit(a, k) ==> k < n
    ensures a < Pow2(n)
  {
    hide Bit, Pow2;
    if a >= Pow2(n) {
      var k := HighBit(a, n);
      assert false;
    }
  }

  // ----- the ceiling of a bitmask -----

  /** The bit an option stands for, unless it is no integer from 0 to 30. */
  function BitIndex(option: Number): Option<nat> {
    var v := Value(option);
    var floor := v.Floor;
    if v == floor as real && 0 <= floor <= 30 then Some(floor) else None
  }

  predicate AllBits(options: seq<Number>) {
    forall i :: 0 <= i < |options| ==> BitIndex(options[i]).Some?
  }

  /** Is bit `k` documented? */
  predicate Documented(options: seq<Number>, k: nat) {
    exists i :: 0 <= i < |options| && BitIndex(options[i]) == Some(k)
  }

  function Mask(options: seq<Number>): nat
    requires AllBits(options)
  {
    if options == [] then 0
    else Or(Mask(options[..|options| - 1]), Pow2(BitIndex(options[|options| - 1]).value))
  }

  /** `bitmaskMaximum`. */
  function Ceiling(definition: Option<Definition>): Option<nat> {
    if definition.None? || !definition.value.bitmask then None
    else if definition.value.options.None? || definition.value.options.value == [] then None
    else if !AllBits(definition.value.options.value) then None
    else Some(Mask(definition.value.options.value))
  }

  method BitmaskMaximum(definition: Option<Definition>) returns (r: Option<nat>)
    ensures r == Ceiling(definition)
  {
    if definition.None? || !definition.value.bitmask {
      return None;
    }
    if definition.value.options.None? || definition.value.options.value == [] {
      return None;
    }
    var options := definition.value.options.value;
    var mask := 0;
    for i := 0 to |options|
      invariant AllBits(options[..i])
      invariant mask == Mask(options[..i])
    {
      hide BitIndex, Or;
      var index := BitIndex(options[i]);
      if index.None? {
        return None;
      }
      assert options[..i + 1][..i] == options[..i];
      mask := Or(mask, Pow2(index.value));
    }
    assert options[..|options|] == options;
    r := Some(mask);
  }

  /** The mask has exactly the documented bits, and so never reaches the sign bit of a 32-bit word. */
  lemma {:induction false} MaskBits(options: seq<Number>)
    requires AllBits(options)
    ensures forall k: nat :: Bit(Mask(options), k) <==> Documented(options, k)
    ensures Mask(options) < Pow2(31)
  {
    hide BitIndex, Or, Bit, Pow2;
    if options == [] {
      forall k: nat ensures !Bit(0, k) { NoBit(k); }
    } else {
      var front, last := options[..|options| - 1], options[|options| - 1];
      MaskBits(front);
      forall k: nat
        ensures Bit(Mask(options), k) <==> Documented(options, k)
      {
        OrBit(Mask(front), Pow2(BitIndex(last).value), k);
        ShiftBit(BitIndex(last).value, k);
        DocumentedSnoc(front, last, k);
        assert options == front + [last];
      }
    }
    forall k: nat | Bit(Mask(options), k)
      ensures k < 31
    {
      var i :| 0 <= i < |options| && BitIndex(options[i]) == Some(k);
      SmallIndex(options[i]);
    }
    HighBitsClear(Mask(options), 31);
  }

  lemma SmallIndex(option: Number)
    ensures BitIndex(option).Some? ==> BitIndex(option).value <= 30
  {
  }

  lemma DocumentedSnoc(front: seq<Number>, last: Number, k: nat)
    ensures Documented(front + [last], k) <==> Documented(front, k) || BitIndex(last) == Some(k)
  {
    hide BitIndex;
    var all := front + [last];
    if Documented(all, k) {
      var i :| 0 <= i < |all| && BitIndex(all[i]) == Some(k);
      if i < |front| { assert front[i] == all[i]; }
    }
    if Documented(front, k) {
      var i :| 0 <= i < |front| && BitIndex(front[i]) == Some(k);
      assert all[i] == front[i];
    }
    assert all[|front|] == last;
  }

  /** `v` is an OR of documented bits. */
  ghost predicate Combination(options: seq<Number>, v: nat) {
    forall k: nat :: Bit(v, k) ==> Documented(options, k)
  }

  /** The ceiling is the greatest OR of documented bits. */
  lemma CeilingIsGreatest(options: seq<Number>, v: nat)
    requires AllBits(options)
    ensures Combination(options, Mask(options))
    ensures Combination(options, v) ==> v <= Mask(options)
  {
    hide Bit, Documented, Mask, AllBits;
    MaskBits(options);
    if Combination(options, v) {
      FewerBits(v, Mask(options));
    }
  }

  ghost predicate DocumentedBelow(options: seq<Number>, n: nat) {
    forall k: nat :: Documented(options, k) <==> k < n
  }

  /** The documented bits leave no gap. */
  ghost predicate Contiguous(options: seq<Number>) {
    exists n: nat :: DocumentedBelow(options, n)
  }

  /**
   Comparing with the ceiling admits no value but ORs of documented bits exactly when the
   documented bits leave no gap; otherwise some undocumented bit passes.
   */
  lemma CeilingTightExactly(options: seq<Number>)
    requires AllBits(options)
    ensures (forall v: nat :: v <= Mask(options) ==> Combination(options, v)) <==> Contiguous(options)
  {
    hide Bit, Documented, Mask, AllBits;
    MaskBits(options);
    if Contiguous(options) {
      var n: nat :| DocumentedBelow(options, n);
      HighBitsClear(Mask(options), n);
      forall v: nat | v <= Mask(options)
        ensures Combination(options, v)
      {
        forall k: nat | Bit(v, k)
          ensures Documented(options, k)
        {
          LowBit(v, n, k);
        }
      }
    }
    if forall v: nat :: v <= Mask(options) ==> Combination(options, v) {
      GapFree(options);
    }
  }

  lemma GapFree(options: seq<Number>)
    requires AllBits(options)
    requires forall v: nat :: v <= Mask(options) ==> Combination(options, v)
    ensures Contiguous(options)
  {
    hide Bit, Documented, Mask, AllBits;
    MaskBits(options);
    var n := Width(Mask(options));
    forall k: nat
      ensures Documented(options, k) <==> k < n
    {
      if Documented(options, k) {
        LowBit(Mask(options), n, k);
      }
      if k < n {
        PowMonotone(k, n - 1);
        assert Combination(options, Pow2(k));
        ShiftBit(k, k);
      }
    }
    assert DocumentedBelow(options, n);
  }

  /** The number of bits of `a`. */
  lemma {:induction false} Width(a: nat) returns (n: nat)
    ensures a < Pow2(n) && (n > 0 ==> Pow2(n - 1) <= a)
  {
    n := 0;
    if a > 0 {
      var m := Width(a / 2);
      n := m + 1;
    }
  }

  lemma {:induction false} PowMonotone(i: nat, j: nat)
    requires i <= j
    ensures Pow2(i) <= Pow2(j)
  {
    if i < j {
      PowMonotone(i, j - 1);
    }
  }

  // ----- one draft -----

  /** `definition.maximum`, else the ceiling of a bitmask. */
  function EffectiveMaximum(d: Definition): Option<real> {
    if d.maximum.Some? then d.maximum
    else
      var ceiling := Ceiling(Some(d));
      if ceiling.Some? then Some(ceiling.value as real) else None
  }

  function OptionCount(d: Definition): nat {
    if d.options.Some? then |d.options.value| else 0
  }

  /** The first of the range and enum checks that fails. */
  function MetadataObjection(d: Definition, v: Number): Option<Reason> {
    var top := EffectiveMaximum(d);
    if d.minimum.Some? && Value(v) < d.minimum.value then Some(BelowMinimum(d.minimum.value))
    else if top.Some? && Value(v) > top.value then
      Some(if d.maximum.Some? then AboveMaximum(top.value) else AboveBits(top.value, OptionCount(d)))
    else if d.options.Some? && d.options.value != [] && !d.bitmask && v !in d.options.value then Some(OutsideEnum)
    else None
  }

  /** `deriveParameterDraftEntry`; `forced` is the operator's choice to write anyway. */
  function Derive(env: Environment, parameter: Option<Parameter>, raw: string, id: string, forced: bool): Entry {
    var definition := if parameter.Some? then parameter.value.definition else None;
    var title := if definition.Some? then definition.value.title else id;
    var family := env.family(id);
    var category :=
      if definition.Some? then definition.value.category else if family.Some? then family.value else "uncategorized";
    var current := if parameter.Some? then Some(parameter.value.value) else None;
    var refuse := (next, reason, overridable) =>
      Entry(id, title, category, definition, raw, current, next, None, Invalid, Some(reason), None, Some(overridable));
    if parameter.None? then refuse(None, NotInSnapshot, false)
    else if Trim(raw) == "" then refuse(None, Blank, false)
    else
      var parsed := env.read(Trim(raw));
      if parsed.None? then refuse(None, NotFinite, false)
      else if Value(parsed.value) < 0.0 && env.isGain(id) then refuse(parsed, NegativeGain, false)
      else
        var objection := if definition.Some? then MetadataObjection(definition.value, parsed.value) else None;
        if objection.Some? && !forced then refuse(parsed, objection.value, true)
        else if env.same(Value(parsed.value), current.value) then
          Entry(id, title, category, definition, raw, current, parsed, Some(0.0), Unchanged, Some(MatchesCurrent),
                None, None)
        else
          Entry(id, title, category, definition, raw, current, parsed, Some(Value(parsed.value) - current.value),
                Staged, None, Some(forced), None)
  }

  /**
   A refused draft is marked overridable exactly when overriding rescues it, and overriding a draft
   that was not refused changes nothing but the mark on a staged entry.
   */
  lemma OverrideRescuesExactly(env: Environment, parameter: Option<Parameter>, raw: string, id: string)
    ensures var plain, forced := Derive(env, parameter, raw, id, false), Derive(env, parameter, raw, id, true);
            && (plain.overridable.Some? <==> plain.status == Invalid)
            && (plain.status == Invalid ==> (plain.overridable == Some(true) <==> forced.status != Invalid))
            && (plain.status != Invalid ==>
                  forced == plain.(override := if plain.status == Staged then Some(true) else None))
  {
    hide MetadataObjection, Trim;
  }

  /** A bitmask whose bits are documented and whose range is not. */
  predicate IsOpenBitmask(d: Definition) {
    && d.bitmask && d.minimum.None? && d.maximum.None?
    && d.options.Some? && d.options.value != [] && AllBits(d.options.value)
  }

  /** `r` is greater than every OR of documented bits. */
  ghost predicate BeyondBits(options: seq<Number>, r: real) {
    forall v: nat :: Combination(options, v) ==> v as real < r
  }

  /**
   A draft for such a bitmask is refused exactly when it is greater than every OR of documented
   bits. The refusal names the ceiling and can be overridden.
   */
  lemma BitmaskRefusesExactly(env: Environment, p: Parameter, raw: string)
    requires p.definition.Some? && IsOpenBitmask(p.definition.value) && !env.isGain(p.id)
    requires Trim(raw) != "" && env.read(Trim(raw)).Some?
    ensures var e := Derive(env, Some(p), raw, p.id, false); var options := p.definition.value.options.value;
            && (e.status == Invalid <==> BeyondBits(options, Value(env.read(Trim(raw)).value)))
            && (e.status == Invalid ==> e.reason == Some(AboveBits(Mask(options) as real, |options|)))
            && Derive(env, Some(p), raw, p.id, true).status != Invalid
  {
    hide Combination, AllBits, Trim, Mask;
    BeyondMask(p.definition.value.options.value, Value(env.read(Trim(raw)).value));
  }

  /** What the metadata of a parameter documents about its values. */
  ghost predicate WithinMetadata(d: Definition, v: Number) {
    && (d.minimum.Some? ==> d.minimum.value <= Value(v))
    && (d.maximum.Some? ==> Value(v) <= d.maximum.value)
    && (d.options.Some? && d.options.value != [] ==>
          if d.bitmask then d.maximum.None? && AllBits(d.options.value) ==> !BeyondBits(d.options.value, Value(v))
          else v in d.options.value)
  }

  lemma ObjectionExactly(d: Definition, v: Number)
    ensures MetadataObjection(d, v).None? <==> WithinMetadata(d, v)
  {
    hide Combination, AllBits, Mask;
    if d.bitmask && d.options.Some? && AllBits(d.options.value) {
      BeyondMask(d.options.value, Value(v));
    }
  }

  /**
   A draft for a parameter of the snapshot is accepted exactly when it is a finite number, no
   negative gain, and within the metadata or forced. What is staged differs from the current
   value beyond the tolerance and carries the difference.
   */
  lemma AcceptedExactly(env: Environment, p: Parameter, raw: string, forced: bool)
    ensures var e := Derive(env, Some(p), raw, p.id, forced); var parsed := env.read(Trim(raw));
            && (e.status != Invalid <==>
                  && Trim(raw) != "" && parsed.Some?
                  && !(Value(parsed.value) < 0.0 && env.isGain(p.id))
                  && (forced || (p.definition.Some? ==> WithinMetadata(p.definition.value, parsed.value))))
            && (e.status == Unchanged ==> env.same(Value(parsed.value), p.value))
            && (e.status == Staged ==>
                  && !env.same(Value(parsed.value), p.value)
                  && e.nextValue == parsed && e.currentValue == Some(p.value)
                  && e.delta.Some? && p.value + e.delta.value == Value(parsed.value))
  {
    hide MetadataObjection, WithinMetadata, Trim;
    var parsed := env.read(Trim(raw));
    if p.definition.Some? && parsed.Some? {
      ObjectionExactly(p.definition.value, parsed.value);
    }
  }

  lemma {:induction false} TrimStartBlank(s: string)
    ensures TrimStart(s) == "" <==> forall i :: 0 <= i < |s| ==> IsSpace(s[i])
    ensures TrimStart(s) != "" ==> !IsSpace(TrimStart(s)[0])
  {
    hide IsSpace;
    if s != "" && IsSpace(s[0]) {
      TrimStartBlank(s[1..]);
      assert forall i :: 0 < i < |s| ==> s[i] == s[1..][i - 1];
    }
  }

  lemma {:induction false} TrimEndSolid(s: string)
    requires s != "" && !IsSpace(s[0])
    ensures TrimEnd(s) != ""
  {
    hide IsSpace;
    if IsSpace(s[|s| - 1]) {
      TrimEndSolid(s[..|s| - 1]);
    }
  }

  lemma BlankExactly(raw: string)
    ensures Trim(raw) == "" <==> forall i :: 0 <= i < |raw| ==> IsSpace(raw[i])
  {
    hide IsSpace, TrimStart, TrimEnd;
    TrimStartBlank(raw);
    if TrimStart(raw) != "" {
      TrimEndSolid(TrimStart(raw));
    } else {
      assert TrimEnd("") == "" by { TrimNothing(); }
    }
  }

  lemma TrimNothing()
    ensures TrimEnd("") == ""
  {
  }

  /** The draft is a finite number for a parameter of the snapshot, and no negative gain. */
  predicate IsWritable(env: Environment, parameter: Option<Parameter>, raw: string, id: string) {
    && parameter.Some? && Trim(raw) != "" && env.read(Trim(raw)).Some?
    && !(Value(env.read(Trim(raw)).value) < 0.0 && env.isGain(id))
  }

  /**
   The reason given, for every draft: missing and unreadable drafts first, then a negative gain, and
   the documented minimum, maximum, bits and enum, in this order and only when not forced.
   */
  lemma ReasonExactly(env: Environment, parameter: Option<Parameter>, raw: string, id: string, forced: bool)
    ensures var e, parsed := Derive(env, parameter, raw, id, forced), env.read(Trim(raw));
            var blank := forall i :: 0 <= i < |raw| ==> IsSpace(raw[i]);
            && (e.reason == Some(NotInSnapshot) <==> parameter.None?)
            && (e.reason == Some(Blank) <==> parameter.Some? && blank)
            && (e.reason == Some(NotFinite) <==> parameter.Some? && !blank && parsed.None?)
            && (e.reason == Some(NegativeGain) <==>
                  parameter.Some? && !blank && parsed.Some? && Value(parsed.value) < 0.0 && env.isGain(id))
            && (e.reason == Some(MatchesCurrent) <==> e.status == Unchanged)
            && (e.reason == None <==> e.status == Staged)
  {
    BlankExactly(raw);
    hide Trim, MetadataObjection, IsSpace;
    if parameter.Some? && parameter.value.definition.Some? && env.read(Trim(raw)).Some? {
      ObjectionKinds(parameter.value.definition.value, env.read(Trim(raw)).value);
    }
  }

  predicate IsObjection(r: Reason) {
    r.BelowMinimum? || r.AboveMaximum? || r.AboveBits? || r.OutsideEnum?
  }

  lemma ObjectionKinds(d: Definition, v: Number)
    ensures MetadataObjection(d, v).Some? ==> IsObjection(MetadataObjection(d, v).value)
  {
    hide Ceiling;
  }

  /** Which documented limit a draft is refused by; the first in this order. */
  lemma LimitExactly(env: Environment, p: Parameter, raw: string, id: string)
    requires IsWritable(env, Some(p), raw, id) && p.definition.Some?
    ensures var e, d, v := Derive(env, Some(p), raw, id, false), p.definition.value, env.read(Trim(raw)).value;
            var low := d.minimum.Some? && Value(v) < d.minimum.value;
            var high := d.maximum.Some? && Value(v) > d.maximum.value;
            var options := if d.options.Some? then d.options.value else [];
            var beyond := d.maximum.None? && d.bitmask && options != [] && AllBits(options)
                          && BeyondBits(options, Value(v));
            && (low <==> d.minimum.Some? && e.reason == Some(BelowMinimum(d.minimum.value)))
            && (!low && high <==> d.maximum.Some? && e.reason == Some(AboveMaximum(d.maximum.value)))
            && (!low && beyond <==>
                  AllBits(options) && e.reason == Some(AboveBits(Mask(options) as real, |options|)))
            && (!low && !high && !beyond && !d.bitmask && options != [] && v !in options
                <==> e.reason == Some(OutsideEnum))
  {
    hide Combination, AllBits, Mask, Trim, BeyondBits;
    var d, v := p.definition.value, env.read(Trim(raw)).value;
    if d.bitmask && d.options.Some? && AllBits(d.options.value) {
      BeyondMask(d.options.value, Value(v));
    }
  }

  lemma BeyondMask(options: seq<Number>, r: real)
    requires AllBits(options)
    ensures BeyondBits(options, r) <==> Mask(options) as real < r
  {
    hide Combination, AllBits, Mask;
    CeilingIsGreatest(options, 0);
    forall n: nat | Combination(options, n)
      ensures n <= Mask(options)
    {
      CeilingIsGreatest(options, n);
    }
  }

  /**
   What else an entry carries, for every draft: the identity it was asked for, the title and category
   of the definition or, without one, the id and its family, and the numbers a status calls for.
   */
  lemma EntryCarries(env: Environment, parameter: Option<Parameter>, raw: string, id: string, forced: bool)
    ensures var e, parsed := Derive(env, parameter, raw, id, forced), env.read(Trim(raw));
            var d := if parameter.Some? then parameter.value.definition else None;
            && e.id == id && e.rawValue == raw && e.definition == d
            && (d.Some? ==> e.title == d.value.title && e.category == d.value.category)
            && (d.None? ==> e.title == id)
            && (d.None? && env.family(id).Some? ==> env.family(id) == Some(e.category))
            && (d.None? && env.family(id).None? ==> e.category == "uncategorized")
            && (parameter.None? ==> e.currentValue == None)
            && (parameter.Some? ==> e.currentValue == Some(parameter.value.value))
            && (e.nextValue == if parameter.Some? && Trim(raw) != "" then parsed else None)
            && (e.status == Invalid ==> e.delta == None && e.override == None && e.overridable.Some?)
            && (e.status == Unchanged ==> e.delta == Some(0.0) && e.override == None && e.overridable == None)
            && (e.status == Staged ==> e.delta.Some? && e.override == Some(forced) && e.overridable == None)
  {
    hide Trim, MetadataObjection;
  }

  /** Every OR of documented bits is accepted. */
  lemma CombinationsPass(env: Environment, p: Parameter, raw: string, v: nat)
    requires p.definition.Some? && IsOpenBitmask(p.definition.value)
    requires Trim(raw) != "" && env.read(Trim(raw)) == Some(Plain(v as real))
    requires Combination(p.definition.value.options.value, v)
    ensures Derive(env, Some(p), raw, p.id, false).status != Invalid
  {
    hide Derive, Trim, Combination, AllBits;
    AcceptedExactly(env, p, raw, false);
    assert !BeyondBits(p.definition.value.options.value, v as real);
  }

  /** Is a number of the same value among the options? */
  predicate IsListed(options: seq<Number>, v: Number) {
    exists i :: 0 <= i < |options| && Value(options[i]) == Value(v)
  }

  /** The zero with the other sign. */
  function OtherZero(v: Number): Number {
    if v.NegativeZero? then Plain(0.0) else NegativeZero
  }

  /**
   Options are compared with `Object.is`: a number whose value is listed is not among them exactly
   when it is one zero and only the other one is listed.
   */
  lemma ListedExactly(options: seq<Number>, v: Number)
    ensures IsListed(options, v) && v !in options
            <==> Value(v) == 0.0 && OtherZero(v) in options && v !in options
  {
    if IsListed(options, v) && v !in options {
      var i :| 0 <= i < |options| && Value(options[i]) == Value(v);
      assert options[i] == OtherZero(v);
    }
    if OtherZero(v) in options && Value(v) == 0.0 {
      var i :| 0 <= i < |options| && options[i] == OtherZero(v);
      assert Value(options[i]) == Value(v);
    }
  }

  /**
   A draft that is within the documented range is refused by an enum that lists its value exactly
   when it is one zero and only the other one is listed, and is not forced.
   */
  lemma ListedRefusedExactly(env: Environment, p: Parameter, raw: string, forced: bool)
    requires p.definition.Some? && !p.definition.value.bitmask && p.definition.value.options.Some?
    requires Trim(raw) != "" && env.read(Trim(raw)).Some?
    requires var d, v := p.definition.value, env.read(Trim(raw)).value;
             && IsListed(d.options.value, v)
             && (d.minimum.Some? ==> d.minimum.value <= Value(v)) && (d.maximum.Some? ==> Value(v) <= d.maximum.value)
             && !(Value(v) < 0.0 && env.isGain(p.id))
    ensures var options, v := p.definition.value.options.value, env.read(Trim(raw)).value;
            Derive(env, Some(p), raw, p.id, forced).status == Invalid
            <==> !forced && Value(v) == 0.0 && OtherZero(v) in options && v !in options
  {
    hide Derive, Trim, OtherZero, IsListed;
    var options, v := p.definition.value.options.value, env.read(Trim(raw)).value;
    AcceptedExactly(env, p, raw, forced);
    ListedExactly(options, v);
    ListedNonEmpty(options, v);
  }

  lemma ListedNonEmpty(options: seq<Number>, v: Number)
    ensures IsListed(options, v) ==> options != []
  {
  }

  // ----- groups -----

  datatype Group = Group(category: string, entries: seq<Entry>)

  /** `compareParameterDraftEntries`. */
  function Compare(le: (string, string) -> bool): (Entry, Entry) -> bool {
    (left: Entry, right: Entry) =>
      if left.category != right.category then le(left.category, right.category) else le(left.id, right.id)
  }

  function ById(le: (string, string) -> bool): (Entry, Entry) -> bool {
    Sorting.By((e: Entry) => e.id, le)
  }

  function Allowed(entries: seq<Entry>, statuses: set<Status>): seq<Entry> {
    if entries == [] then []
    else
      Allowed(entries[..|entries| - 1], statuses)
      + if entries[|entries| - 1].status in statuses then [entries[|entries| - 1]] else []
  }

  lemma {:induction false} AllowedMembers(entries: seq<Entry>, statuses: set<Status>)
    ensures forall e :: e in Allowed(entries, statuses) <==> e in entries && e.status in statuses
  {
    if entries != [] {
      AllowedMembers(entries[..|entries| - 1], statuses);
      assert entries == entries[..|entries| - 1] + [entries[|entries| - 1]];
    }
  }

  function OfCategory(entries: seq<Entry>, category: string): seq<Entry> {
    if entries == [] then []
    else
      OfCategory(entries[..|entries| - 1], category)
      + if entries[|entries| - 1].category == category then [entries[|entries| - 1]] else []
  }

  /** The categories in order of first appearance. */
  function Categories(entries: seq<Entry>): seq<string> {
    if entries == [] then []
    else
      var earlier := Categories(entries[..|entries| - 1]);
      if entries[|entries| - 1].category in earlier then earlier else earlier + [entries[|entries| - 1].category]
  }

  function GroupsFor(le: (string, string) -> bool, entries: seq<Entry>, categories: seq<string>): (groups: seq<Group>)
    ensures |groups| == |categories|
    ensures forall i :: 0 <= i < |groups| ==>
              groups[i] == Group(categories[i], Sorting.Sort(Compare(le), OfCategory(entries, categories[i])))
  {
    if categories == [] then []
    else
      var last := categories[|categories| - 1];
      GroupsFor(le, entries, categories[..|categories| - 1])
      + [Group(last, Sorting.Sort(Compare(le), OfCategory(entries, last)))]
  }

  function Groups(le: (string, string) -> bool, entries: seq<Entry>, statuses: set<Status>): seq<Group> {
    var allowed := Allowed(entries, statuses);
    GroupsFor(le, allowed, Sorting.Sort(le, Categories(allowed)))
  }

  ghost predicate Grouped(grouped: map<string, seq<Entry>>, keys: seq<string>, entries: seq<Entry>) {
    && keys == Categories(entries)
    && (forall c :: c in grouped <==> c in keys)
    && (forall c :: c in grouped ==> grouped[c] == OfCategory(entries, c))
  }

  lemma {:induction false} CategoriesComplete(entries: seq<Entry>, c: string)
    ensures c in Categories(entries) <==> OfCategory(entries, c) != []
  {
    if entries != [] {
      CategoriesComplete(entries[..|entries| - 1], c);
    }
  }

  /** One entry is pushed onto the list of its category, which is created when there is none. */
  lemma GroupedSnoc(grouped: map<string, seq<Entry>>, keys: seq<string>, entries: seq<Entry>, e: Entry)
    requires Grouped(grouped, keys, entries)
    ensures e.category in grouped ==>
              Grouped(grouped[e.category := grouped[e.category] + [e]], keys, entries + [e])
    ensures e.category !in grouped ==> Grouped(grouped[e.category := [e]], keys + [e.category], entries + [e])
  {
    var all := entries + [e];
    assert all[..|all| - 1] == entries;
    CategoriesComplete(entries, e.category);
    forall c
      ensures OfCategory(all, c) == OfCategory(entries, c) + if e.category == c then [e] else []
    {
    }
  }

  lemma AllowedSnoc(entries: seq<Entry>, i: nat, statuses: set<Status>)
    requires i < |entries|
    ensures var before := Allowed(entries[..i], statuses);
            Allowed(entries[..i + 1], statuses)
            == if entries[i].status in statuses then before + [entries[i]] else before
  {
    assert entries[..i + 1][..i] == entries[..i];
  }

  /** `groupParameterDraftEntries`; `keys` is the insertion order of the map. */
  method GroupParameterDraftEntries(le: (string, string) -> bool, entries: seq<Entry>, statuses: set<Status>)
      returns (groups: seq<Group>)
    ensures groups == Groups(le, entries, statuses)
  {
    hide Allowed, Categories, OfCategory, GroupsFor;
    var grouped: map<string, seq<Entry>>, keys: seq<string> := map[], [];
    assert Grouped(grouped, keys, Allowed(entries[..0], statuses)) by { NothingGrouped(entries, statuses); }
    for i := 0 to |entries|
      invariant Grouped(grouped, keys, Allowed(entries[..i], statuses))
    {
      hide Grouped;
      var e := entries[i];
      AllowedSnoc(entries, i, statuses);
      if e.status in statuses {
        GroupedSnoc(grouped, keys, Allowed(entries[..i], statuses), e);
        if e.category in grouped {
          grouped := grouped[e.category := grouped[e.category] + [e]];
        } else {
          grouped := grouped[e.category := [e]];
          keys := keys + [e.category];
        }
      }
    }
    assert entries[..|entries|] == entries;
    groups := SortGroups(le, grouped, keys, Allowed(entries, statuses));
  }

  lemma NothingGrouped(entries: seq<Entry>, statuses: set<Status>)
    ensures Grouped(map[], [], Allowed(entries[..0], statuses))
  {
  }

  method SortGroups(le: (string, string) -> bool, grouped: map<string, seq<Entry>>, keys: seq<string>,
                    ghost entries: seq<Entry>)
      returns (groups: seq<Group>)
    requires Grouped(grouped, keys, entries)
    ensures groups == GroupsFor(le, entries, Sorting.Sort(le, Categories(entries)))
  {
    hide Categories, OfCategory, Sorting.Sort;
    var sorted := Sorting.Sort(le, keys);
    Sorting.SortMembers(le, keys);
    groups := [];
    for i := 0 to |sorted|
      invariant groups == GroupsFor(le, entries, sorted[..i])
    {
      assert sorted[..i + 1][..i] == sorted[..i];
      assert sorted[i] in keys;
      groups := groups + [Group(sorted[i], Sorting.Sort(Compare(le), grouped[sorted[i]]))];
    }
    assert sorted[..|sorted|] == sorted;
  }

  function Flatten(groups: seq<Group>): seq<Entry> {
    if groups == [] then [] else Flatten(groups[..|groups| - 1]) + groups[|groups| - 1].entries
  }

  lemma {:induction false} CategoriesDistinct(entries: seq<Entry>)
    ensures forall i, j :: 0 <= i < j < |Categories(entries)| ==> Categories(entries)[i] != Categories(entries)[j]
  {
    if entries != [] {
      CategoriesDistinct(entries[..|entries| - 1]);
    }
  }

  lemma {:induction false} OfCategoryMembers(entries: seq<Entry>, c: string)
    ensures forall e :: e in OfCategory(entries, c) <==> e in entries && e.category == c
  {
    if entries != [] {
      OfCategoryMembers(entries[..|entries| - 1], c);
      assert entries == entries[..|entries| - 1] + [entries[|entries| - 1]];
    }
  }

  /** How often an entry occurs in the list of a category. */
  lemma {:induction false} OfCategoryCount(entries: seq<Entry>, c: string, e: Entry)
    ensures multiset(OfCategory(entries, c))[e] == if e.category == c then multiset(entries)[e] else 0
  {
    if entries != [] {
      OfCategoryCount(entries[..|entries| - 1], c, e);
      Sorting.SplitLast(entries);
    }
  }

  /** An entry occurs in the groups of distinct categories as often as before, if its category is among them. */
  lemma {:induction false} FlattenCount(le: (string, string) -> bool, entries: seq<Entry>, categories: seq<string>,
                                        e: Entry)
    requires forall i, j :: 0 <= i < j < |categories| ==> categories[i] != categories[j]
    ensures multiset(Flatten(GroupsFor(le, entries, categories)))[e] ==
            if e.category in categories then multiset(entries)[e] else 0
  {
    hide OfCategory, Sorting.Sort;
    if categories != [] {
      var front, last := categories[..|categories| - 1], categories[|categories| - 1];
      FlattenCount(le, entries, front, e);
      OfCategoryCount(entries, last, e);
      Sorting.SortKeeps(Compare(le), OfCategory(entries, last));
      var groups := GroupsFor(le, entries, categories);
      assert groups[..|front|] == GroupsFor(le, entries, front);
      assert last !in front;
      assert e.category in categories <==> e.category in front || e.category == last;
    }
  }

  /** Sorting depends on the comparison of the elements only. */
  lemma {:induction false} SortOneCategory(le: (string, string) -> bool, entries: seq<Entry>, c: string)
    requires forall e :: e in entries ==> e.category == c
    ensures Sorting.Sort(Compare(le), entries) == Sorting.Sort(ById(le), entries)
  {
    hide Sorting.Insert;
    if entries != [] {
      var front, last := entries[..|entries| - 1], entries[|entries| - 1];
      SortOneCategory(le, front, c);
      Sorting.SortMembers(ById(le), front);
      InsertOneCategory(le, last, Sorting.Sort(ById(le), front), c);
    }
  }

  lemma {:induction false} InsertOneCategory(le: (string, string) -> bool, x: Entry, sorted: seq<Entry>, c: string)
    requires x.category == c && forall e :: e in sorted ==> e.category == c
    ensures Sorting.Insert(Compare(le), x, sorted) == Sorting.Insert(ById(le), x, sorted)
  {
    if sorted != [] {
      InsertOneCategory(le, x, sorted[..|sorted| - 1], c);
    }
  }

  /** The group of a category holds the entries of that category and is in order of their ids. */
  lemma GroupInOrder(le: (string, string) -> bool, entries: seq<Entry>, c: string)
    requires Sorting.TotalPreorder(le)
    ensures var group := Sorting.Sort(Compare(le), OfCategory(entries, c));
            && Sorting.Ordered(ById(le), group)
            && (forall e :: e in group <==> e in entries && e.category == c)
  {
    hide Sorting.Sort, OfCategory;
    OfCategoryMembers(entries, c);
    SortOneCategory(le, OfCategory(entries, c), c);
    Sorting.ByPreorder((e: Entry) => e.id, le);
    Sorting.SortOrdered(ById(le), OfCategory(entries, c));
    Sorting.SortMembers(ById(le), OfCategory(entries, c));
  }

  /**
   Grouping keeps each entry of an allowed status exactly once, in the group of its category. The
   groups have distinct categories in order, are not empty, and are in order of ids.
   */
  lemma GroupsPartition(le: (string, string) -> bool, entries: seq<Entry>, statuses: set<Status>)
    requires Sorting.TotalPreorder(le)
    ensures var groups := Groups(le, entries, statuses);
            && multiset(Flatten(groups)) == multiset(Allowed(entries, statuses))
            && (forall i, j :: 0 <= i < j < |groups| ==>
                  groups[i].category != groups[j].category && le(groups[i].category, groups[j].category))
            && (forall i :: 0 <= i < |groups| ==>
                  && groups[i].entries != [] && Sorting.Ordered(ById(le), groups[i].entries)
                  && (forall e :: e in groups[i].entries <==>
                        e in entries && e.status in statuses && e.category == groups[i].category))
  {
    AllowedMembers(entries, statuses);
    var allowed := Allowed(entries, statuses);
    var categories := Categories(allowed);
    var sorted := Sorting.Sort(le, categories);
    var groups := Groups(le, entries, statuses);
    hide Categories, OfCategory, Sorting.Sort, Allowed, Flatten, Sorting.TotalPreorder, GroupsFor;
    CategoriesDistinct(allowed);
    Sorting.SortUnique(le, (c: string) => c, categories);
    Sorting.SortOrdered(le, categories);
    Sorting.SortMembers(le, categories);
    forall e: Entry
      ensures multiset(Flatten(groups))[e] == multiset(allowed)[e]
    {
      FlattenCount(le, allowed, sorted, e);
      CategoriesComplete(allowed, e.category);
      OfCategoryMembers(allowed, e.category);
    }
    forall i | 0 <= i < |groups|
      ensures groups[i].entries != [] && Sorting.Ordered(ById(le), groups[i].entries)
      ensures forall e :: e in groups[i].entries <==> e in allowed && e.category == groups[i].category
    {
      assert sorted[i] in categories;
      CategoriesComplete(allowed, sorted[i]);
      GroupInOrder(le, allowed, sorted[i]);
      Sorting.SortMembers(Compare(le), OfCategory(allowed, sorted[i]));
    }
  }

  // ----- summary -----

  datatype Summary = Summary(totalEntries: nat, stagedCount: nat, invalidCount: nat, stagedCategories: seq<string>)

  /** `summarizeParameterDraftEntries`. */
  function Summarize(le: (string, string) -> bool, entries: seq<Entry>): Summary {
    var staged := Allowed(entries, {Staged});
    Summary(|entries|, |staged|, |Allowed(entries, {Invalid})|, Sorting.Sort(le, Categories(staged)))
  }

  /** The summary counts what the default groups hold, and lists their categories. */
  lemma SummaryMatchesGroups(le: (string, string) -> bool, entries: seq<Entry>)
    requires Sorting.TotalPreorder(le)
    ensures var s, groups := Summarize(le, entries), Groups(le, entries, {Staged});
            && s.stagedCount == |Flatten(groups)|
            && |s.stagedCategories| == |groups|
            && (forall i :: 0 <= i < |groups| ==> s.stagedCategories[i] == groups[i].category)
            && s.totalEntries == s.stagedCount + s.invalidCount + |Allowed(entries, {Unchanged})|
  {
    hide Flatten, Sorting.Sort, Categories, GroupsFor;
    GroupsPartition(le, entries, {Staged});
    StatusesPartition(entries);
    var staged, kept := Allowed(entries, {Staged}), Flatten(Groups(le, entries, {Staged}));
    assert |multiset(kept)| == |multiset(staged)|;
  }

  lemma {:induction false} StatusesPartition(entries: seq<Entry>)
    ensures |entries| == |Allowed(entries, {Staged})| + |Allowed(entries, {Invalid})| + |Allowed(entries, {Unchanged})|
  {
    if entries != [] {
      StatusesPartition(entries[..|entries| - 1]);
      var status := entries[|entries| - 1].status;
      assert status == Staged || status == Invalid || status == Unchanged;
    }
  }
}
