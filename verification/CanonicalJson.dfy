/**
 JSON text as `json.dumps` writes it with compact separators, sorted keys and no ASCII escaping,
 and the fact that the text of a value determines the value.
 */
module CanonicalJson {
  import opened Collections
  import opened Texts

  predicate IsNumberChar(c: char) {
    '0' <= c <= '9' || c == '-' || c == '+' || c == '.' || c == 'e' || c == 'E'
  }

  predicate IsNumber(s: string) {
    s != "" && forall i :: 0 <= i < |s| ==> IsNumberChar(s[i])
  }

  /** A JSON number is its text. */
  type NumberText = s: string | IsNumber(s) witness "0"

  datatype Json = Number(text: NumberText) | Text(s: string) | Array(items: Items) | Object(members: Members)

  datatype Items = NoItems | Item(head: Json, tail: Items)

  datatype Members = NoMembers | Member(key: string, value: Json, others: Members)

  // ----- printing -----

  /** The letter of a two-character escape. */
  function EscapeLetter(c: char): Option<char> {
    if c == '\"' then Some('\"')
    else if c == '\\' then Some('\\')
    else if c as int == 8 then Some('b')
    else if c as int == 12 then Some('f')
    else if c == '\n' then Some('n')
    else if c == '\r' then Some('r')
    else if c == '\t' then Some('t')
    else None
  }

  function Escape(c: char): (s: string)
    ensures s != ""
  {
    var letter := EscapeLetter(c);
    if letter.Some? then ['\\', letter.value]
    else if c as int < 32 then "\\u00" + [Digit(c as int / 16), Digit(c as int % 16)]
    else [c]
  }

  /** The characters of a string and its closing quote. */
  function Body(s: string): (b: string)
    ensures b != ""
  {
    if s == "" then "\"" else Escape(s[0]) + Body(s[1..])
  }

  function Quote(s: string): string {
    "\"" + Body(s)
  }

  function Comma(first: bool): string {
    if first then "" else ","
  }

  function Dump(j: Json): string
    decreases j
  {
    match j
    case Number(text) => text
    case Text(s) => Quote(s)
    case Array(items) => "[" + DumpItems(items, true)
    case Object(members) => "{" + DumpMembers(members, true)
  }

  function DumpItems(items: Items, first: bool): string
    decreases items
  {
    match items
    case NoItems => "]"
    case Item(head, tail) => Comma(first) + (Dump(head) + DumpItems(tail, false))
  }

  function DumpMembers(members: Members, first: bool): string
    decreases members
  {
    match members
    case NoMembers => "}"
    case Member(key, value, others) =>
      Comma(first) + (Quote(key) + (":" + (Dump(value) + DumpMembers(others, false))))
  }

  // ----- every piece of text ends where it ends -----

  lemma Cancel(p: string, s: string, t: string)
    requires p + s == p + t
    ensures s == t
  {
    assert (p + s)[|p|..] == s && (p + t)[|p|..] == t;
  }

  /** What follows a number does not continue it. */
  predicate IsClosed(s: string) {
    s != "" ==> !IsNumberChar(s[0])
  }

  lemma LongerIsOpen(x: string, y: string, s: string, t: string)
    requires IsNumber(y) && x + s == y + t && |x| < |y|
    ensures !IsClosed(s)
  {
    assert (x + s)[|x|] == (y + t)[|x|] == y[|x|];
    assert (x + s)[|x|] == s[0];
  }

  lemma NumberEnds(x: string, y: string, s: string, t: string)
    requires IsNumber(x) && IsNumber(y) && IsClosed(s) && IsClosed(t) && x + s == y + t
    ensures x == y && s == t
  {
    hide IsNumber, IsClosed;
    if |x| < |y| {
      LongerIsOpen(x, y, s, t);
    }
    if |y| < |x| {
      LongerIsOpen(y, x, t, s);
    }
    assert (x + s)[..|x|] == x && (y + t)[..|y|] == y;
    Cancel(x, s, t);
  }

  lemma DigitInjective(n: nat, m: nat)
    requires n < 16 && m < 16 && Digit(n) == Digit(m)
    ensures n == m
  {
  }

  lemma EscapeShape(c: char)
    ensures Escape(c)[0] != '\"'
    ensures Escape(c)[0] == '\\' <==> EscapeLetter(c).Some? || c as int < 32
    ensures Escape(c)[0] != '\\' ==> Escape(c) == [c]
    ensures Escape(c)[0] == '\\' ==>
              |Escape(c)| >= 2 && Escape(c)[1] == if EscapeLetter(c).Some? then EscapeLetter(c).value else 'u'
    ensures EscapeLetter(c) != Some('u')
  {
  }

  lemma LetterInjective(c: char, d: char)
    requires EscapeLetter(c) == EscapeLetter(d) && EscapeLetter(c).Some?
    ensures c == d
  {
  }

  lemma HexInjective(c: char, d: char, s: string, t: string)
    requires EscapeLetter(c).None? && EscapeLetter(d).None? && c as int < 32 && d as int < 32
    requires Escape(c) + s == Escape(d) + t
    ensures c == d
  {
    var n, m := c as int, d as int;
    assert (Escape(c) + s)[4] == Digit(n / 16) && (Escape(c) + s)[5] == Digit(n % 16);
    assert (Escape(d) + t)[4] == Digit(m / 16) && (Escape(d) + t)[5] == Digit(m % 16);
    DigitInjective(n / 16, m / 16);
    DigitInjective(n % 16, m % 16);
  }

  lemma EscapeEnds(c: char, d: char, s: string, t: string)
    requires Escape(c) + s == Escape(d) + t
    ensures c == d && s == t
  {
    EscapeShape(c);
    EscapeShape(d);
    assert (Escape(c) + s)[0] == Escape(c)[0] && (Escape(d) + t)[0] == Escape(d)[0];
    if Escape(c)[0] == '\\' {
      assert (Escape(c) + s)[1] == Escape(c)[1] && (Escape(d) + t)[1] == Escape(d)[1];
      if EscapeLetter(c).Some? {
        LetterInjective(c, d);
      } else {
        HexInjective(c, d, s, t);
      }
    }
    Cancel(Escape(c), s, t);
  }

  lemma {:induction false} BodyEnds(a: string, b: string, s: string, t: string)
    requires Body(a) + s == Body(b) + t
    ensures a == b && s == t
  {
    hide Escape;
    assert (Body(a) + s)[0] == Body(a)[0] && (Body(b) + t)[0] == Body(b)[0];
    if a != "" {
      EscapeShape(a[0]);
      assert Body(a) + s == Escape(a[0]) + (Body(a[1..]) + s);
    }
    if b != "" {
      EscapeShape(b[0]);
      assert Body(b) + t == Escape(b[0]) + (Body(b[1..]) + t);
    }
    if a != "" && b != "" {
      EscapeEnds(a[0], b[0], Body(a[1..]) + s, Body(b[1..]) + t);
      BodyEnds(a[1..], b[1..], s, t);
      assert a == [a[0]] + a[1..] && b == [b[0]] + b[1..];
    } else if a == "" && b == "" {
      Cancel("\"", s, t);
    }
  }

  lemma QuoteEnds(a: string, b: string, s: string, t: string)
    requires Quote(a) + s == Quote(b) + t
    ensures a == b && s == t
  {
    hide Body;
    assert Quote(a) + s == "\"" + (Body(a) + s) && Quote(b) + t == "\"" + (Body(b) + t);
    Cancel("\"", Body(a) + s, Body(b) + t);
    BodyEnds(a, b, s, t);
  }

  lemma DumpFirst(j: Json)
    ensures Dump(j) != ""
    ensures match j
            case Number(_) => IsNumberChar(Dump(j)[0])
            case Text(_) => Dump(j)[0] == '\"'
            case Array(_) => Dump(j)[0] == '['
            case Object(_) => Dump(j)[0] == '{'
  {
    hide Body, DumpItems, DumpMembers;
  }

  lemma ItemsFirst(items: Items, first: bool)
    ensures DumpItems(items, first) != ""
    ensures items.NoItems? ==> DumpItems(items, first)[0] == ']'
    ensures items.Item? && !first ==> DumpItems(items, first)[0] == ','
    ensures items.Item? && first ==> DumpItems(items, first)[0] != ']'
  {
    if items.Item? {
      DumpFirst(items.head);
    }
    hide Dump;
  }

  lemma MembersFirst(members: Members, first: bool)
    ensures DumpMembers(members, first) != ""
    ensures members.NoMembers? ==> DumpMembers(members, first)[0] == '}'
    ensures members.Member? ==> DumpMembers(members, first)[0] == if first then '\"' else ','
  {
    hide Dump, Body;
  }

  lemma ClosedAppend(p: string, s: string)
    requires p != "" && !IsNumberChar(p[0])
    ensures IsClosed(p + s)
  {
  }

  /**
   The text of a value, followed by anything that does not continue a number, determines the value
   and where it ends.
   */
  lemma {:induction false} DumpEnds(a: Json, b: Json, s: string, t: string)
    requires Dump(a) + s == Dump(b) + t && IsClosed(s) && IsClosed(t)
    ensures a == b && s == t
    decreases a, 0
  {
    DumpFirst(a);
    DumpFirst(b);
    assert (Dump(a) + s)[0] == Dump(a)[0] && (Dump(b) + t)[0] == Dump(b)[0];
    hide Quote, DumpItems, DumpMembers, IsClosed;
    match a
    case Number(x) => NumberEnds(x, b.text, s, t);
    case Text(x) => QuoteEnds(x, b.s, s, t);
    case Array(items) =>
      Split("[", DumpItems(items, true), s, DumpItems(b.items, true), t);
      ItemsEnd(items, b.items, true, s, t);
    case Object(members) =>
      Split("{", DumpMembers(members, true), s, DumpMembers(b.members, true), t);
      MembersEnd(members, b.members, true, s, t);
  }

  lemma Split(p: string, x: string, s: string, y: string, t: string)
    requires (p + x) + s == (p + y) + t
    ensures x + s == y + t
  {
    assert (p + x) + s == p + (x + s) && (p + y) + t == p + (y + t);
    Cancel(p, x + s, y + t);
  }

  lemma {:induction false} ItemsEnd(a: Items, b: Items, first: bool, s: string, t: string)
    requires DumpItems(a, first) + s == DumpItems(b, first) + t
    ensures a == b && s == t
    decreases a, 1
  {
    ItemsFirst(a, first);
    ItemsFirst(b, first);
    assert (DumpItems(a, first) + s)[0] == DumpItems(a, first)[0];
    assert (DumpItems(b, first) + t)[0] == DumpItems(b, first)[0];
    match a
    case NoItems => Cancel("]", s, t);
    case Item(head, tail) =>
      var x, y := DumpItems(tail, false), DumpItems(b.tail, false);
      hide Dump;
      Split(Comma(first), Dump(head) + x, s, Dump(b.head) + y, t);
      hide DumpItems, IsNumberChar;
      assert (Dump(head) + x) + s == Dump(head) + (x + s) && (Dump(b.head) + y) + t == Dump(b.head) + (y + t);
      ItemsFirst(tail, false);
      ItemsFirst(b.tail, false);
      Delimiters();
      ClosedAppend(x, s);
      ClosedAppend(y, t);
      DumpEnds(head, b.head, x + s, y + t);
      ItemsEnd(tail, b.tail, false, s, t);
  }

  lemma Delimiters()
    ensures !IsNumberChar(',') && !IsNumberChar(']') && !IsNumberChar('}')
  {
  }

  lemma {:induction false} MembersEnd(a: Members, b: Members, first: bool, s: string, t: string)
    requires DumpMembers(a, first) + s == DumpMembers(b, first) + t
    ensures a == b && s == t
    decreases a, 1
  {
    MembersFirst(a, first);
    MembersFirst(b, first);
    assert (DumpMembers(a, first) + s)[0] == DumpMembers(a, first)[0];
    assert (DumpMembers(b, first) + t)[0] == DumpMembers(b, first)[0];
    match a
    case NoMembers => Cancel("}", s, t);
    case Member(key, value, others) =>
      var x, y := DumpMembers(others, false), DumpMembers(b.others, false);
      var v, w := Dump(value), Dump(b.value);
      hide Dump, Quote;
      Split(Comma(first), Quote(key) + (":" + (v + x)), s, Quote(b.key) + (":" + (w + y)), t);
      hide DumpMembers, IsNumberChar;
      assert (Quote(key) + (":" + (v + x))) + s == Quote(key) + ((":" + (v + x)) + s);
      assert (Quote(b.key) + (":" + (w + y))) + t == Quote(b.key) + ((":" + (w + y)) + t);
      QuoteEnds(key, b.key, (":" + (v + x)) + s, (":" + (w + y)) + t);
      Split(":", v + x, s, w + y, t);
      assert (v + x) + s == v + (x + s) && (w + y) + t == w + (y + t);
      MembersFirst(others, false);
      MembersFirst(b.others, false);
      Delimiters();
      ClosedAppend(x, s);
      ClosedAppend(y, t);
      DumpEnds(value, b.value, x + s, y + t);
      MembersEnd(others, b.others, false, s, t);
  }

  /** Two values with the same text are equal. */
  lemma DumpInjective(a: Json, b: Json)
    requires Dump(a) == Dump(b)
    ensures a == b
  {
    assert Dump(a) + "" == Dump(a) && Dump(b) + "" == Dump(b);
    DumpEnds(a, b, "", "");
  }

  // ----- objects with optional members -----

  /** A member that is written only when it is present. */
  function With(key: string, value: Option<Json>, others: Members): Members {
    if value.Some? then Member(key, value.value, others) else others
  }

  /** The value of the first member with the key. */
  function Get(members: Members, key: string): Option<Json> {
    match members
    case NoMembers => None
    case Member(k, value, others) => if k == key then Some(value) else Get(others, key)
  }

  lemma GetWith(key: string, value: Option<Json>, others: Members, wanted: string)
    ensures Get(With(key, value, others), wanted)
            == if key == wanted && value.Some? then value else Get(others, wanted)
  {
  }
}
