/**
 The interned parameter tables: a generator that stores every distinct string, list and
 definition once, and the decoder it emits, which must restore every definition.

 A table is keyed by canonical JSON text. That two values with the same text are equal is what
 the generator relies on, and is proved here for each kind of value it interns.
 */
module InternTables {
  import CanonicalJson
  import opened Collections
  import opened Texts

  /** A number is the text JSON writes for it. */
  type Number = CanonicalJson.NumberText

  type Pairs = seq<(Number, string)>

  /** One compact definition, over labels `S` and lists `L`: values before interning, indices after. */
  datatype Def<S, L> = Def(
    l: Option<S>, d: Option<S>, u: Option<string>,
    mn: Option<Number>, mx: Option<Number>, i: Option<Number>,
    o: Option<L>, b: Option<L>, r: bool, ro: bool)

  type RawDef = Def<string, Pairs>
  type CompactDef = Def<nat, nat>

  datatype Payload = Payload(
    strings: seq<string>, lists: seq<Pairs>, defs: seq<CompactDef>, grouped: map<string, map<string, nat>>)

  ghost predicate NoRepeats<T>(s: seq<T>) {
    forall i, j :: 0 <= i < j < |s| ==> s[i] != s[j]
  }

  /** A dictionary from canonical text to (index, value), filled in index order. */
  class Interner<T(==, !new)> {
    const key: T -> string
    var table: map<string, (nat, T)>
    ghost var order: seq<T>

    ghost predicate Valid()
      reads this
    {
      && Injective(key)
      && |order| == |table|
      && (forall k :: k in table ==>
            table[k].0 < |order| && order[table[k].0] == table[k].1 && key(table[k].1) == k)
      && (forall j :: 0 <= j < |order| ==> key(order[j]) in table && table[key(order[j])].0 == j)
    }

    constructor (key: T -> string)
      requires Injective(key)
      ensures Valid() && order == [] && this.key == key
    {
      this.key := key;
      table := map[];
      order := [];
    }

    /** `intern`: the index of the value, which is appended only if its text is new. */
    method Intern(value: T) returns (index: nat)
      requires Valid()
      modifies this
      ensures Valid() && old(order) <= order
      ensures index < |order| && order[index] == value
      ensures order == if value in old(order) then old(order) else old(order) + [value]
    {
      var k := key(value);
      if k !in table {
        assert value !in order;
        table := table[k := (|table|, value)];
        order := order + [value];
      } else {
        assert key(table[k].1) == key(value);
        assert order[table[k].0] == value;
      }
      index := table[k].0;
    }

    /** `table(t)`: the values in index order. */
    method Values() returns (list: seq<T>)
      requires Valid()
      ensures list == order
    {
      list := [];
      while |list| < |table|
        invariant |list| <= |order| && list == order[..|list|]
      {
        assert key(order[|list|]) in table;
        var k :| k in table && table[k].0 == |list|;
        list := list + [table[k].1];
      }
    }

    /** No table ever holds a value twice. */
    lemma NoDuplicates()
      requires Valid()
      ensures NoRepeats(order)
    {
      forall i, j | 0 <= i < j < |order|
        ensures order[i] != order[j]
      {
        assert table[key(order[i])].0 == i && table[key(order[j])].0 == j;
      }
    }
  }

  // ----- canonical texts -----

  function StringKey(s: string): string {
    CanonicalJson.Quote(s)
  }

  function PairJson(pair: (Number, string)): CanonicalJson.Json {
    CanonicalJson.Array(CanonicalJson.Item(
      CanonicalJson.Number(pair.0), CanonicalJson.Item(CanonicalJson.Text(pair.1), CanonicalJson.NoItems)))
  }

  function PairItems(pairs: Pairs): CanonicalJson.Items {
    if pairs == [] then CanonicalJson.NoItems else CanonicalJson.Item(PairJson(pairs[0]), PairItems(pairs[1..]))
  }

  function ListKey(pairs: Pairs): string {
    CanonicalJson.Dump(CanonicalJson.Array(PairItems(pairs)))
  }

  function IndexJson(i: Option<nat>): Option<CanonicalJson.Json> {
    if i.None? then None
    else
      DecimalDigits(i.value);
      Some(CanonicalJson.Number(Decimal(i.value)))
  }

  function NumberJson(n: Option<Number>): Option<CanonicalJson.Json> {
    if n.None? then None else Some(CanonicalJson.Number(n.value))
  }

  function TextJson(s: Option<string>): Option<CanonicalJson.Json> {
    if s.None? then None else Some(CanonicalJson.Text(s.value))
  }

  function FlagJson(flag: bool): Option<CanonicalJson.Json> {
    if flag then Some(CanonicalJson.Number("1")) else None
  }

  /** The members that are present, in the order of their keys. */
  function DefMembers(d: CompactDef): CanonicalJson.Members {
    CanonicalJson.With("b", IndexJson(d.b),
      CanonicalJson.With("d", IndexJson(d.d),
        CanonicalJson.With("i", NumberJson(d.i),
          CanonicalJson.With("l", IndexJson(d.l),
            CanonicalJson.With("mn", NumberJson(d.mn),
              CanonicalJson.With("mx", NumberJson(d.mx),
                CanonicalJson.With("o", IndexJson(d.o),
                  CanonicalJson.With("r", FlagJson(d.r),
                    CanonicalJson.With("ro", FlagJson(d.ro),
                      CanonicalJson.With("u", TextJson(d.u), CanonicalJson.NoMembers))))))))))
  }

  function DefKey(d: CompactDef): string {
    CanonicalJson.Dump(CanonicalJson.Object(DefMembers(d)))
  }

  lemma {:induction false} PairItemsInjective(a: Pairs, b: Pairs)
    requires PairItems(a) == PairItems(b)
    ensures a == b
  {
    if a != [] && b != [] {
      PairItemsInjective(a[1..], b[1..]);
      assert a == [a[0]] + a[1..] && b == [b[0]] + b[1..];
    }
  }

  lemma IndexInjective(i: Option<nat>, j: Option<nat>)
    requires IndexJson(i) == IndexJson(j)
    ensures i == j
  {
    if i.Some? {
      DecimalReads(i.value);
      DecimalReads(j.value);
    }
    hide Decimal;
  }

  lemma KeysDiffer()
    ensures "b" != "d" && "b" != "i" && "b" != "l" && "b" != "o" && "b" != "r" && "b" != "u"
    ensures "d" != "i" && "d" != "l" && "d" != "o" && "d" != "r" && "d" != "u"
    ensures "i" != "l" && "i" != "o" && "i" != "r" && "i" != "u"
    ensures "l" != "o" && "l" != "r" && "l" != "u" && "o" != "r" && "o" != "u" && "r" != "u"
    ensures "mn" != "mx" && "mn" != "ro" && "mx" != "ro"
    ensures forall s: string :: |s| == 1 ==> s != "mn" && s != "mx" && s != "ro"
  {
    assert "b"[0] == 'b' && "d"[0] == 'd' && "i"[0] == 'i' && "l"[0] == 'l';
    assert "o"[0] == 'o' && "r"[0] == 'r' && "u"[0] == 'u';
    assert "mn"[0] == 'm' && "mn"[1] == 'n' && "mx"[1] == 'x' && "ro"[0] == 'r';
    assert "mx"[0] == 'm';
  }

  /** Each key gives back its own field. */
  lemma MembersRead(d: CompactDef)
    ensures var m := DefMembers(d);
            && CanonicalJson.Get(m, "b") == IndexJson(d.b) && CanonicalJson.Get(m, "d") == IndexJson(d.d)
            && CanonicalJson.Get(m, "i") == NumberJson(d.i) && CanonicalJson.Get(m, "l") == IndexJson(d.l)
            && CanonicalJson.Get(m, "mn") == NumberJson(d.mn) && CanonicalJson.Get(m, "mx") == NumberJson(d.mx)
            && CanonicalJson.Get(m, "o") == IndexJson(d.o) && CanonicalJson.Get(m, "r") == FlagJson(d.r)
            && CanonicalJson.Get(m, "ro") == FlagJson(d.ro) && CanonicalJson.Get(m, "u") == TextJson(d.u)
  {
    KeysDiffer();
    hide IndexJson, NumberJson, TextJson, FlagJson;
    MemberRead(d, "b");
    MemberRead(d, "d");
    MemberRead(d, "i");
    MemberRead(d, "l");
    MemberRead(d, "mn");
    MemberRead(d, "mx");
    MemberRead(d, "o");
    MemberRead(d, "r");
    MemberRead(d, "ro");
    MemberRead(d, "u");
    hide DefMembers;
  }

  lemma MemberRead(d: CompactDef, key: string)
    ensures CanonicalJson.Get(DefMembers(d), key)
            == if key == "b" && IndexJson(d.b).Some? then IndexJson(d.b)
               else if key == "d" && IndexJson(d.d).Some? then IndexJson(d.d)
               else if key == "i" && NumberJson(d.i).Some? then NumberJson(d.i)
               else if key == "l" && IndexJson(d.l).Some? then IndexJson(d.l)
               else if key == "mn" && NumberJson(d.mn).Some? then NumberJson(d.mn)
               else if key == "mx" && NumberJson(d.mx).Some? then NumberJson(d.mx)
               else if key == "o" && IndexJson(d.o).Some? then IndexJson(d.o)
               else if key == "r" && FlagJson(d.r).Some? then FlagJson(d.r)
               else if key == "ro" && FlagJson(d.ro).Some? then FlagJson(d.ro)
               else if key == "u" && TextJson(d.u).Some? then TextJson(d.u)
               else None
  {
    var m9 := CanonicalJson.With("u", TextJson(d.u), CanonicalJson.NoMembers);
    var m8 := CanonicalJson.With("ro", FlagJson(d.ro), m9);
    var m7 := CanonicalJson.With("r", FlagJson(d.r), m8);
    var m6 := CanonicalJson.With("o", IndexJson(d.o), m7);
    var m5 := CanonicalJson.With("mx", NumberJson(d.mx), m6);
    var m4 := CanonicalJson.With("mn", NumberJson(d.mn), m5);
    var m3 := CanonicalJson.With("l", IndexJson(d.l), m4);
    var m2 := CanonicalJson.With("i", NumberJson(d.i), m3);
    var m1 := CanonicalJson.With("d", IndexJson(d.d), m2);
    hide CanonicalJson.With;
    CanonicalJson.GetWith("u", TextJson(d.u), CanonicalJson.NoMembers, key);
    CanonicalJson.GetWith("ro", FlagJson(d.ro), m9, key);
    CanonicalJson.GetWith("r", FlagJson(d.r), m8, key);
    CanonicalJson.GetWith("o", IndexJson(d.o), m7, key);
    CanonicalJson.GetWith("mx", NumberJson(d.mx), m6, key);
    CanonicalJson.GetWith("mn", NumberJson(d.mn), m5, key);
    CanonicalJson.GetWith("l", IndexJson(d.l), m4, key);
    CanonicalJson.GetWith("i", NumberJson(d.i), m3, key);
    CanonicalJson.GetWith("d", IndexJson(d.d), m2, key);
    CanonicalJson.GetWith("b", IndexJson(d.b), m1, key);
  }

  lemma DefMembersInjective(a: CompactDef, b: CompactDef)
    requires DefMembers(a) == DefMembers(b)
    ensures a == b
  {
    MembersRead(a);
    MembersRead(b);
    hide DefMembers;
    IndexInjective(a.b, b.b);
    IndexInjective(a.d, b.d);
    IndexInjective(a.l, b.l);
    IndexInjective(a.o, b.o);
    hide IndexJson;
  }

  /** Values with the same canonical text are equal, for strings, lists and definitions. */
  lemma KeysInjective()
    ensures Injective(StringKey) && Injective(ListKey) && Injective(DefKey)
  {
    hide CanonicalJson.Dump, CanonicalJson.Quote, PairItems, DefMembers;
    forall x: string, y: string | StringKey(x) == StringKey(y)
      ensures x == y
    {
      assert CanonicalJson.Quote(x) + "" == CanonicalJson.Quote(y) + "";
      CanonicalJson.QuoteEnds(x, y, "", "");
    }
    forall x: Pairs, y: Pairs | ListKey(x) == ListKey(y)
      ensures x == y
    {
      CanonicalJson.DumpInjective(CanonicalJson.Array(PairItems(x)), CanonicalJson.Array(PairItems(y)));
      PairItemsInjective(x, y);
    }
    forall x: CompactDef, y: CompactDef | DefKey(x) == DefKey(y)
      ensures x == y
    {
      CanonicalJson.DumpInjective(CanonicalJson.Object(DefMembers(x)), CanonicalJson.Object(DefMembers(y)));
      DefMembersInjective(x, y);
    }
  }

  // ----- names -----

  /** `name.find('_') + 1`. */
  function Cut(name: string): (c: nat)
    ensures c <= |name|
  {
    if '_' !in name then 0 else 1 + FirstUnderscore(name)
  }

  function FirstUnderscore(name: string): (i: nat)
    requires '_' in name
    ensures i < |name| && name[i] == '_' && '_' !in name[..i]
  {
    if name[0] == '_' then 0 else 1 + FirstUnderscore(name[1..])
  }

  lemma CutSplits(name: string)
    ensures name[..Cut(name)] + name[Cut(name)..] == name
  {
  }

  /** Every name is cut behind its first underscore, or not at all when it has none. */
  ghost predicate CutAtFirst(grouped: map<string, map<string, nat>>) {
    forall prefix, suffix :: prefix in grouped && suffix in grouped[prefix] ==>
      if prefix == "" then '_' !in suffix
      else prefix[|prefix| - 1] == '_' && '_' !in prefix[..|prefix| - 1]
  }

  lemma PutCut(grouped: map<string, map<string, nat>>, name: string, index: nat)
    requires CutAtFirst(grouped)
    ensures CutAtFirst(Put(grouped, name[..Cut(name)], name[Cut(name)..], index))
  {
    var prefix := name[..Cut(name)];
    if '_' in name {
      assert prefix[|prefix| - 1] == '_' && prefix[..|prefix| - 1] == name[..FirstUnderscore(name)];
    }
    hide Cut;
  }

  // ----- the emitted decoder -----

  ghost predicate InRange(i: Option<nat>, n: nat) {
    i.Some? ==> i.value < n
  }

  ghost predicate DefInRange(def: CompactDef, strings: nat, lists: nat) {
    InRange(def.l, strings) && InRange(def.d, strings) && InRange(def.o, lists) && InRange(def.b, lists)
  }

  function At<T>(list: seq<T>, i: Option<nat>): Option<T>
    requires InRange(i, |list|)
  {
    if i.Some? then Some(list[i.value]) else None
  }

  /** `expand`: the indices looked up again. */
  function Expand(strings: seq<string>, lists: seq<Pairs>, def: CompactDef): RawDef
    requires DefInRange(def, |strings|, |lists|)
  {
    Def(At(strings, def.l), At(strings, def.d), def.u, def.mn, def.mx, def.i,
        At(lists, def.o), At(lists, def.b), def.r, def.ro)
  }

  /** Is the name filed under its own prefix and suffix? */
  ghost predicate Filed(grouped: map<string, map<string, nat>>, name: string) {
    name[..Cut(name)] in grouped && name[Cut(name)..] in grouped[name[..Cut(name)]]
  }

  ghost predicate WellFormed(p: Payload) {
    && (forall k :: 0 <= k < |p.defs| ==> DefInRange(p.defs[k], |p.strings|, |p.lists|))
    && (forall prefix, suffix :: prefix in p.grouped && suffix in p.grouped[prefix]
                                 ==> p.grouped[prefix][suffix] < |p.defs|)
  }

  /** Every grouped entry stands for a parameter and decodes to its definition, and every parameter is there. */
  ghost predicate Restores(p: Payload, params: map<string, RawDef>)
    requires WellFormed(p)
  {
    && (forall prefix, suffix :: prefix in p.grouped && suffix in p.grouped[prefix] ==>
          && prefix + suffix in params
          && Expand(p.strings, p.lists, p.defs[p.grouped[prefix][suffix]]) == params[prefix + suffix])
    && (forall name :: name in params ==> Filed(p.grouped, name))
  }

  lemma FiledSplits(grouped: map<string, map<string, nat>>, name: string)
    requires Filed(grouped, name)
    ensures exists prefix, suffix :: prefix in grouped && suffix in grouped[prefix] && prefix + suffix == name
  {
    CutSplits(name);
    var prefix, suffix := name[..Cut(name)], name[Cut(name)..];
    assert prefix in grouped && suffix in grouped[prefix] && prefix + suffix == name;
  }

  /** The entries of one prefix, added to the catalog. */
  method AddGroup(expanded: seq<RawDef>, prefix: string, members: map<string, nat>, catalog: map<string, RawDef>)
      returns (r: map<string, RawDef>)
    requires forall s :: s in members ==> members[s] < |expanded|
    ensures forall s :: s in members ==> prefix + s in r && r[prefix + s] == expanded[members[s]]
    ensures forall name :: name in r <==> name in catalog || exists s :: s in members && name == prefix + s
    ensures forall name :: name in catalog && name in r && (forall s :: s in members ==> name != prefix + s)
              ==> r[name] == catalog[name]
  {
    r := catalog;
    var suffixes := members.Keys;
    while suffixes != {}
      invariant suffixes <= members.Keys
      invariant forall s :: s in members && s !in suffixes ==> prefix + s in r && r[prefix + s] == expanded[members[s]]
      invariant forall name :: name in r ==> name in catalog || exists s :: s in members && name == prefix + s
      invariant forall name :: name in catalog ==> name in r
      invariant forall name :: name in catalog && (forall s :: s in members ==> name != prefix + s)
                  ==> r[name] == catalog[name]
    {
      var suffix :| suffix in suffixes;
      suffixes := suffixes - {suffix};
      forall s | s in members && prefix + s == prefix + suffix
        ensures s == suffix
      {
        assert (prefix + s)[|prefix|..] == s && (prefix + suffix)[|prefix|..] == suffix;
      }
      r := r[prefix + suffix := expanded[members[suffix]]];
    }
  }

  /** Every entry of the catalog is a parameter with its own definition. */
  ghost predicate Agrees(catalog: map<string, RawDef>, params: map<string, RawDef>) {
    forall name :: name in catalog ==> name in params && catalog[name] == params[name]
  }

  /** The catalog the emitted module builds is the parameter set itself. */
  method BuildCatalog(p: Payload, ghost params: map<string, RawDef>) returns (catalog: map<string, RawDef>)
    requires WellFormed(p) && Restores(p, params)
    ensures catalog == params
  {
    var expanded: seq<RawDef> := [];
    var k := 0;
    while k < |p.defs|
      invariant 0 <= k <= |p.defs| && |expanded| == k
      invariant forall j :: 0 <= j < k ==> expanded[j] == Expand(p.strings, p.lists, p.defs[j])
    {
      hide At, InRange;
      expanded := expanded + [Expand(p.strings, p.lists, p.defs[k])];
      k := k + 1;
    }
    hide Expand, DefInRange, Filed;
    catalog := map[];
    var prefixes := p.grouped.Keys;
    while prefixes != {}
      invariant prefixes <= p.grouped.Keys
      invariant Agrees(catalog, params)
      invariant forall prefix, suffix :: prefix in p.grouped && suffix in p.grouped[prefix] && prefix !in prefixes
                  ==> prefix + suffix in catalog
    {
      var prefix :| prefix in prefixes;
      prefixes := prefixes - {prefix};
      catalog := AddGroup(expanded, prefix, p.grouped[prefix], catalog);
    }
    forall name | name in params
      ensures name in catalog
    {
      FiledSplits(p.grouped, name);
    }
  }

  // ----- the generator -----

  lemma ExpandExtends(strings: seq<string>, lists: seq<Pairs>, moreStrings: seq<string>, moreLists: seq<Pairs>,
                      def: CompactDef)
    requires strings <= moreStrings && lists <= moreLists && DefInRange(def, |strings|, |lists|)
    ensures DefInRange(def, |moreStrings|, |moreLists|)
    ensures Expand(moreStrings, moreLists, def) == Expand(strings, lists, def)
  {
  }

  lemma AtExtends<T>(list: seq<T>, more: seq<T>, i: Option<nat>)
    requires list <= more && InRange(i, |list|)
    ensures InRange(i, |more|) && At(more, i) == At(list, i)
  {
  }

  method InternOption<T(==, !new)>(table: Interner<T>, value: Option<T>) returns (index: Option<nat>)
    requires table.Valid()
    modifies table
    ensures table.Valid() && old(table.order) <= table.order
    ensures index.Some? == value.Some? && InRange(index, |table.order|)
    ensures At(table.order, index) == value
  {
    if value.None? {
      return None;
    }
    var i := table.Intern(value.value);
    index := Some(i);
  }

  /** Two fields interned into the same table, one after the other. */
  method InternPair<T(==, !new)>(table: Interner<T>, first: Option<T>, second: Option<T>)
      returns (i: Option<nat>, j: Option<nat>)
    requires table.Valid()
    modifies table
    ensures table.Valid() && old(table.order) <= table.order
    ensures InRange(i, |table.order|) && InRange(j, |table.order|)
    ensures At(table.order, i) == first && At(table.order, j) == second
  {
    hide At;
    i := InternOption(table, first);
    ghost var before := table.order;
    j := InternOption(table, second);
    AtExtends(before, table.order, i);
  }

  /** The body of the generator's loop up to interning the definition itself. */
  method CompactOf(strings: Interner<string>, lists: Interner<Pairs>, raw: RawDef) returns (def: CompactDef)
    requires strings.Valid() && lists.Valid()
    modifies strings, lists
    ensures strings.Valid() && lists.Valid() && old(strings.order) <= strings.order && old(lists.order) <= lists.order
    ensures DefInRange(def, |strings.order|, |lists.order|)
    ensures Expand(strings.order, lists.order, def) == raw
  {
    hide At;
    var l, d := InternPair(strings, raw.l, raw.d);
    var o, b := InternPair(lists, raw.o, raw.b);
    def := Def(l, d, raw.u, raw.mn, raw.mx, raw.i, o, b, raw.r, raw.ro);
  }

  /** What the generator has achieved once the parameters outside `todo` have been grouped. */
  ghost predicate Progress(strings: seq<string>, lists: seq<Pairs>, defs: seq<CompactDef>,
                           grouped: map<string, map<string, nat>>, params: map<string, RawDef>, todo: set<string>)
  {
    && (forall k :: 0 <= k < |defs| ==> DefInRange(defs[k], |strings|, |lists|))
    && (forall prefix, suffix :: prefix in grouped && suffix in grouped[prefix] ==>
          && grouped[prefix][suffix] < |defs|
          && prefix + suffix in params
          && Expand(strings, lists, defs[grouped[prefix][suffix]]) == params[prefix + suffix])
    && (forall name :: name in params && name !in todo ==> Filed(grouped, name))
  }

  lemma TablesGrow(strings: seq<string>, lists: seq<Pairs>, moreStrings: seq<string>, moreLists: seq<Pairs>,
                   defs: seq<CompactDef>, grouped: map<string, map<string, nat>>, params: map<string, RawDef>,
                   todo: set<string>)
    requires Progress(strings, lists, defs, grouped, params, todo)
    requires strings <= moreStrings && lists <= moreLists
    ensures Progress(moreStrings, moreLists, defs, grouped, params, todo)
  {
    forall k | 0 <= k < |defs|
      ensures DefInRange(defs[k], |moreStrings|, |moreLists|)
      ensures Expand(moreStrings, moreLists, defs[k]) == Expand(strings, lists, defs[k])
    {
      ExpandExtends(strings, lists, moreStrings, moreLists, defs[k]);
    }
  }

  /** `grouped.setdefault(prefix, {})[suffix] = index`. */
  function Put(grouped: map<string, map<string, nat>>, prefix: string, suffix: string, index: nat)
      : map<string, map<string, nat>>
  {
    grouped[prefix := (if prefix in grouped then grouped[prefix] else map[])[suffix := index]]
  }

  lemma PutProgress(strings: seq<string>, lists: seq<Pairs>, defs: seq<CompactDef>, more: seq<CompactDef>,
                    grouped: map<string, map<string, nat>>, params: map<string, RawDef>, todo: set<string>,
                    name: string, index: nat)
    requires Progress(strings, lists, defs, grouped, params, todo)
    requires defs <= more && (forall k :: 0 <= k < |more| ==> DefInRange(more[k], |strings|, |lists|))
    requires index < |more| && name in params && Expand(strings, lists, more[index]) == params[name]
    ensures Progress(strings, lists, more, Put(grouped, name[..Cut(name)], name[Cut(name)..], index), params,
                     todo - {name})
  {
    hide Expand, DefInRange, Cut, Filed;
    CutSplits(name);
    forall other | other in params && other !in todo - {name}
      ensures Filed(Put(grouped, name[..Cut(name)], name[Cut(name)..], index), other)
    {
      FiledPut(grouped, name, index, other);
    }
  }

  lemma FiledPut(grouped: map<string, map<string, nat>>, name: string, index: nat, other: string)
    requires other == name || Filed(grouped, other)
    ensures Filed(Put(grouped, name[..Cut(name)], name[Cut(name)..], index), other)
  {
    hide Cut;
  }

  lemma NewDefsInRange(strings: seq<string>, lists: seq<Pairs>, defs: seq<CompactDef>, more: seq<CompactDef>,
                       def: CompactDef, grouped: map<string, map<string, nat>>, params: map<string, RawDef>,
                       todo: set<string>)
    requires Progress(strings, lists, defs, grouped, params, todo) && DefInRange(def, |strings|, |lists|)
    requires more == defs || more == defs + [def]
    ensures forall k :: 0 <= k < |more| ==> DefInRange(more[k], |strings|, |lists|)
  {
    hide DefInRange, Expand;
  }

  /** One round of the generator's loop. */
  method GroupOne(strings: Interner<string>, lists: Interner<Pairs>, defs: Interner<CompactDef>,
                  grouped: map<string, map<string, nat>>, params: map<string, RawDef>, name: string,
                  ghost todo: set<string>)
      returns (g: map<string, map<string, nat>>)
    requires strings.Valid() && lists.Valid() && defs.Valid() && name in params
    requires Progress(strings.order, lists.order, defs.order, grouped, params, todo) && CutAtFirst(grouped)
    modifies strings, lists, defs
    ensures strings.Valid() && lists.Valid() && defs.Valid() && CutAtFirst(g)
    ensures Progress(strings.order, lists.order, defs.order, g, params, todo - {name})
  {
    hide Progress, Expand, DefInRange, CutAtFirst;
    ghost var s0, l0, d0 := strings.order, lists.order, defs.order;
    var def := CompactOf(strings, lists, params[name]);
    TablesGrow(s0, l0, strings.order, lists.order, d0, grouped, params, todo);
    var index := defs.Intern(def);
    NewDefsInRange(strings.order, lists.order, d0, defs.order, def, grouped, params, todo);
    PutProgress(strings.order, lists.order, d0, defs.order, grouped, params, todo, name, index);
    PutCut(grouped, name, index);
    g := Put(grouped, name[..Cut(name)], name[Cut(name)..], index);
  }

  lemma NothingYet(params: map<string, RawDef>)
    ensures Progress([], [], [], map[], params, params.Keys)
  {
  }

  lemma AllGrouped(p: Payload, params: map<string, RawDef>)
    requires Progress(p.strings, p.lists, p.defs, p.grouped, params, {})
    ensures WellFormed(p) && Restores(p, params)
  {
    hide Expand, DefInRange, Filed;
  }

  /** The generator: its payload is well formed, holds nothing twice, and decodes to the parameters it was given. */
  method Generate(params: map<string, RawDef>) returns (p: Payload)
    ensures WellFormed(p) && Restores(p, params)
    ensures NoRepeats(p.strings) && NoRepeats(p.lists) && NoRepeats(p.defs) && CutAtFirst(p.grouped)
  {
    hide Progress, WellFormed, Restores, NoRepeats;
    KeysInjective();
    var strings := new Interner<string>(StringKey);
    var lists := new Interner<Pairs>(ListKey);
    var defs := new Interner<CompactDef>(DefKey);
    var grouped: map<string, map<string, nat>> := map[];
    var todo := params.Keys;
    NothingYet(params);
    while todo != {}
      invariant todo <= params.Keys
      invariant strings.Valid() && lists.Valid() && defs.Valid()
      invariant fresh(strings) && fresh(lists) && fresh(defs)
      invariant Progress(strings.order, lists.order, defs.order, grouped, params, todo) && CutAtFirst(grouped)
      decreases todo
    {
      var name :| name in todo;
      grouped := GroupOne(strings, lists, defs, grouped, params, name, todo);
      todo := todo - {name};
    }
    var s := strings.Values();
    var l := lists.Values();
    var d := defs.Values();
    p := Payload(s, l, d, grouped);
    AllGrouped(p, params);
    strings.NoDuplicates();
    lists.NoDuplicates();
    defs.NoDuplicates();
  }

  /** Generator and emitted decoder together: the catalog is the parameter set, name by name. */
  method GenerateThenDecode(params: map<string, RawDef>) returns (catalog: map<string, RawDef>)
    ensures catalog == params
  {
    var p := Generate(params);
    catalog := BuildCatalog(p, params);
  }
}
