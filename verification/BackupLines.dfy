/**
 What any line of a text backup contributes: separators, columns, comments and white space.
 */
module BackupLines {
  import opened BackupText
  import opened Collections
  import opened Texts

  predicate AllSeparators(s: string) {
    forall i :: 0 <= i < |s| ==> IsSeparator(s[i])
  }

  predicate NoSeparators(s: string) {
    forall i :: 0 <= i < |s| ==> !IsSeparator(s[i])
  }

  /** The text ends between two words. */
  predicate EndsApart(s: string) {
    s == "" || IsSeparator(s[|s| - 1])
  }

  predicate StartsApart(s: string) {
    s == "" || IsSeparator(s[0])
  }

  /**
   A line in parts: what precedes the id, the id, a gap, the value, further columns and a comment.
   */
  datatype Parts = Parts(before: string, id: string, gap: string, value: string, after: string, comment: string) {
    function Line(): string {
      before + (id + (gap + (value + (after + comment))))
    }
  }

  /** What precedes the comment. */
  function Head(p: Parts): string {
    p.before + (p.id + (p.gap + (p.value + p.after)))
  }

  /** The parts are what they should be: the first id among the words, and the very next word. */
  predicate WellParted(p: Parts) {
    && EndsApart(p.before) && (forall t :: t in Tokens(p.before) ==> !IsId(t))
    && IsId(p.id)
    && p.gap != "" && AllSeparators(p.gap)
    && p.value != "" && NoSeparators(p.value)
    && StartsApart(p.after)
    && '#' !in Head(p)
    && (p.comment == "" || p.comment[0] == '#')
  }

  // ----- words, one at a time -----

  lemma TokensNone()
    ensures Tokens("") == []
  {
  }

  lemma TokensSkip(s: string)
    requires s != "" && IsSeparator(s[0])
    ensures Tokens(s) == Tokens(s[1..])
  {
    hide IsSeparator;
  }

  lemma {:induction false} TokenStops(s: string)
    ensures TokenLength(s) < |s| ==> IsSeparator(s[TokenLength(s)])
    ensures s != "" && !IsSeparator(s[0]) ==> TokenLength(s) > 0
  {
    hide IsSeparator;
    if s != "" && !IsSeparator(s[0]) {
      TokenStops(s[1..]);
    }
  }

  /** The words of a text that begins with one. */
  lemma TokensHead(s: string)
    requires s != "" && !IsSeparator(s[0])
    ensures var n := TokenLength(s); n > 0 && Tokens(s) == [s[..n]] + Tokens(s[n..]) && StartsApart(s[n..])
  {
    TokenStops(s);
    hide IsSeparator, TokenLength;
  }

  lemma {:induction false} TokenLengthAppend(a: string, b: string)
    requires (a != "" && EndsApart(a)) || StartsApart(b)
    ensures TokenLength(a + b) == TokenLength(a)
  {
    hide IsSeparator;
    if a == "" {
      assert a + b == b;
    } else if !IsSeparator(a[0]) {
      assert (a + b)[1..] == a[1..] + b;
      if |a| > 1 {
        TokenLengthAppend(a[1..], b);
      } else {
        assert a[1..] + b == b;
      }
    }
  }

  lemma EndsApartLater(s: string, n: nat)
    requires EndsApart(s) && n <= |s|
    ensures EndsApart(s[n..])
  {
    hide IsSeparator;
  }

  /** The words of two texts that meet between words. */
  lemma {:induction false} TokensAppend(a: string, b: string)
    requires EndsApart(a) || StartsApart(b)
    ensures Tokens(a + b) == Tokens(a) + Tokens(b)
    decreases |a|
  {
    hide IsSeparator, Tokens, TokenLength, EndsApart, StartsApart;
    if a == "" {
      TokensNone();
      assert a + b == b;
    } else if IsSeparator(a[0]) {
      TokensSkip(a);
      TokensSkip(a + b);
      assert (a + b)[1..] == a[1..] + b;
      if EndsApart(a) {
        EndsApartLater(a, 1);
      }
      TokensAppend(a[1..], b);
    } else {
      var n := TokenLength(a);
      TokensHead(a);
      TokensHead(a + b);
      TokenLengthAppend(a, b);
      assert (a + b)[..n] == a[..n] && (a + b)[n..] == a[n..] + b;
      if EndsApart(a) {
        EndsApartLater(a, n);
      }
      TokensAppend(a[n..], b);
    }
  }

  lemma {:induction false} NoTokens(s: string)
    ensures Tokens(s) == [] <==> AllSeparators(s)
    decreases |s|
  {
    hide IsSeparator;
    if s != "" && IsSeparator(s[0]) {
      NoTokens(s[1..]);
      assert forall i :: 0 < i < |s| ==> s[i] == s[1..][i - 1];
    }
  }

  lemma {:induction false} OneToken(s: string)
    requires s != "" && NoSeparators(s)
    ensures Tokens(s) == [s]
  {
    hide IsSeparator;
    WholeToken(s);
    assert s[..|s|] == s && s[|s|..] == "";
  }

  lemma {:induction false} WholeToken(s: string)
    requires NoSeparators(s)
    ensures TokenLength(s) == |s|
  {
    hide IsSeparator;
    if s != "" {
      WholeToken(s[1..]);
    }
  }

  lemma TrimStartTokens(s: string)
    ensures Tokens(TrimStart(s)) == Tokens(s)
    decreases |s|
  {
    if s != "" && IsSpace(s[0]) {
      TrimStartTokens(s[1..]);
    }
  }

  lemma {:induction false} TrimEndTokens(s: string)
    ensures Tokens(TrimEnd(s)) == Tokens(s)
  {
    if s != "" && IsSpace(s[|s| - 1]) {
      var last := s[|s| - 1..];
      assert s == s[..|s| - 1] + last;
      TokensAppend(s[..|s| - 1], last);
      NoTokens(last);
      assert Tokens(s[..|s| - 1]) + [] == Tokens(s[..|s| - 1]);
      TrimEndTokens(s[..|s| - 1]);
    }
  }

  /** White space around a line makes no difference to its words. */
  lemma TrimTokens(s: string)
    ensures Tokens(Trim(s)) == Tokens(s)
  {
    hide Tokens, TrimStart, TrimEnd;
    TrimStartTokens(s);
    TrimEndTokens(TrimStart(s));
  }

  /** A line's entry in terms of the words before its comment. */
  lemma EntryOfTokens(num: Numerals, raw: string)
    ensures var tokens := Tokens(raw[..IndexOf(raw, '#')]); var i := FirstId(tokens);
            LineEntry(num, raw) == if i + 1 < |tokens| && num.read(tokens[i + 1]).Some?
                                   then Some(Entry(tokens[i], num.read(tokens[i + 1]).value)) else None
  {
    TrimTokens(raw[..IndexOf(raw, '#')]);
    hide Trim, FirstId, IndexOf;
    assert Tokens("") == [];
  }

  lemma {:induction false} FirstIdAppend(a: seq<string>, b: seq<string>)
    requires forall t :: t in a ==> !IsId(t)
    ensures FirstId(a + b) == |a| + FirstId(b)
  {
    hide IsId;
    if a == [] {
      assert a + b == b;
    } else {
      assert (a + b)[1..] == a[1..] + b;
      assert a[0] in a;
      FirstIdAppend(a[1..], b);
    }
  }

  lemma {:induction false} FirstIdExactly(tokens: seq<string>)
    ensures forall i :: 0 <= i < FirstId(tokens) ==> !IsId(tokens[i])
    ensures FirstId(tokens) < |tokens| ==> IsId(tokens[FirstId(tokens)])
  {
    hide IsId;
    if tokens != [] && !IsId(tokens[0]) {
      FirstIdExactly(tokens[1..]);
    }
  }

  lemma TokensAround(before: string, word: string, after: string)
    requires EndsApart(before) && word != "" && NoSeparators(word) && StartsApart(after)
    ensures Tokens(before + (word + after)) == Tokens(before) + ([word] + Tokens(after))
  {
    OneToken(word);
    hide Tokens, IsSeparator;
    TokensAppend(word, after);
    TokensAppend(before, word + after);
  }

  lemma PartedTokens(p: Parts)
    requires WellParted(p)
    ensures Tokens(Head(p)) == Tokens(p.before) + ([p.id] + ([p.value] + Tokens(p.after)))
  {
    IdHasNoSeparators(p.id);
    NoTokens(p.gap);
    hide Tokens, IsSeparator, IsId, NoSeparators;
    var rest := p.gap + (p.value + p.after);
    assert EndsApart(p.gap) && StartsApart(rest);
    TokensAround(p.gap, p.value, p.after);
    assert Tokens(rest) == [p.value] + Tokens(p.after);
    TokensAround(p.before, p.id, rest);
  }

  lemma IdHasNoSeparators(id: string)
    requires IsId(id)
    ensures id != "" && NoSeparators(id)
  {
    hide IsIdStart;
    forall i | 0 <= i < |id|
      ensures !IsSeparator(id[i])
    {
      IdCharsAreSolid(id[i]);
    }
  }

  lemma IdCharsAreSolid(c: char)
    ensures IsIdChar(c) ==> !IsSeparator(c)
  {
  }

  lemma {:induction false} IndexOfComment(head: string, comment: string)
    requires '#' !in head && (comment == "" || comment[0] == '#')
    ensures IndexOf(head + comment, '#') == |head|
  {
    if head == "" {
      assert head + comment == comment;
    } else {
      assert (head + comment)[1..] == head[1..] + comment;
      IndexOfComment(head[1..], comment);
    }
  }

  lemma HeadOfLine(p: Parts)
    requires WellParted(p)
    ensures p.Line()[..IndexOf(p.Line(), '#')] == Head(p)
  {
    hide Tokens, IndexOf, IsId, EndsApart, StartsApart, NoSeparators, AllSeparators;
    LineOfHead(p);
    IndexOfComment(Head(p), p.comment);
    assert (Head(p) + p.comment)[..|Head(p)|] == Head(p);
  }

  /** A line in good parts is read as its id and value, whatever precedes and follows them. */
  lemma PartedReads(num: Numerals, p: Parts)
    requires WellParted(p)
    ensures LineEntry(num, p.Line())
            == if num.read(p.value).Some? then Some(Entry(p.id, num.read(p.value).value)) else None
  {
    HeadOfLine(p);
    PartedTokens(p);
    EntryOfTokens(num, p.Line());
    var first, rest := Tokens(p.before), [p.id] + ([p.value] + Tokens(p.after));
    FirstIdAppend(first, rest);
    assert FirstId(rest) == 0;
    hide Tokens, IndexOf, LineEntry, IsId, FirstId, Head, WellParted;
    assert (first + rest)[|first|] == p.id && (first + rest)[|first| + 1] == p.value;
  }

  /** `w` is a word of the text, between the texts around it. */
  predicate Splits(s: string, before: string, w: string, after: string) {
    s == before + (w + after) && w != "" && NoSeparators(w) && EndsApart(before) && StartsApart(after)
  }

  /** It is the word after `i` others. */
  predicate Counts(s: string, i: nat, before: string, w: string, after: string) {
    && i < |Tokens(s)| && w == Tokens(s)[i]
    && Tokens(before) == Tokens(s)[..i] && Tokens(after) == Tokens(s)[i + 1..]
  }

  lemma CountsFirst(s: string, w: string, rest: string)
    requires Tokens(s) == [w] + Tokens(rest)
    ensures Counts(s, 0, "", w, rest)
  {
    TokensNone();
    hide Tokens;
    assert Tokens(s)[1..] == Tokens(rest);
  }

  lemma SplitsFirst(w: string, rest: string)
    requires w != "" && NoSeparators(w) && StartsApart(rest)
    ensures Splits(w + rest, "", w, rest)
  {
    hide NoSeparators, StartsApart;
    assert "" + (w + rest) == w + rest;
  }

  lemma AroundSkip(s: string, i: nat, before: string, w: string, after: string)
    requires s != "" && IsSeparator(s[0]) && Splits(s[1..], before, w, after) && Counts(s[1..], i, before, w, after)
    ensures Splits(s, [s[0]] + before, w, after) && Counts(s, i, [s[0]] + before, w, after)
  {
    TokensSkip(s);
    TokensSkip([s[0]] + before);
    BehindSeparator(s[0], before);
    hide IsSeparator, Tokens, EndsApart, StartsApart, NoSeparators;
    assert s == [s[0]] + s[1..];
    Regroup([s[0]], before, w + after);
    assert ([s[0]] + before)[1..] == before;
  }

  lemma ConsSlices<T>(x: T, u: seq<T>, i: nat)
    requires i < |u|
    ensures var t := [x] + u; t[i + 1] == u[i] && t[..i + 1] == [x] + u[..i] && t[i + 2..] == u[i + 1..]
  {
  }

  lemma Regroup(x: string, y: string, z: string)
    ensures x + (y + z) == (x + y) + z
  {
  }

  lemma SplitsLater(token: string, rest: string, before: string, w: string, after: string)
    requires Splits(rest, before, w, after) && EndsApart(token + before)
    ensures Splits(token + rest, token + before, w, after)
  {
    hide EndsApart, StartsApart, NoSeparators;
    Regroup(token, before, w + after);
  }

  lemma CountsLater(s: string, token: string, rest: string, i: nat, before: string, w: string, after: string)
    requires Counts(rest, i, before, w, after)
    requires Tokens(s) == [token] + Tokens(rest) && Tokens(token + before) == [token] + Tokens(before)
    ensures Counts(s, i + 1, token + before, w, after)
  {
    hide Tokens;
    ConsSlices(token, Tokens(rest), i);
  }

  lemma AroundLater(token: string, rest: string, i: nat, before: string, w: string, after: string)
    requires token != "" && NoSeparators(token) && StartsApart(rest) && Tokens(token + rest) == [token] + Tokens(rest)
    requires Splits(rest, before, w, after) && Counts(rest, i, before, w, after)
    ensures Splits(token + rest, token + before, w, after) && Counts(token + rest, i + 1, token + before, w, after)
  {
    assert !IsSeparator((w + after)[0]);
    hide IsSeparator, Tokens, EndsApart, StartsApart, NoSeparators;
    BehindToken(token, before, w + after, rest);
    hide Splits, Counts;
    SplitsLater(token, rest, before, w, after);
    CountsLater(token + rest, token, rest, i, before, w, after);
  }

  /** The first word of a text that begins with one, and the rest. */
  lemma CutHead(s: string) returns (w: string, rest: string)
    requires s != "" && !IsSeparator(s[0])
    ensures s == w + rest && w != "" && NoSeparators(w) && StartsApart(rest)
    ensures Tokens(s) == [w] + Tokens(rest)
  {
    TokensHead(s);
    w, rest := s[..TokenLength(s)], s[TokenLength(s)..];
    hide IsSeparator, Tokens, StartsApart;
  }

  lemma {:induction false} TokenParts(s: string, i: nat) returns (before: string, after: string)
    requires i < |Tokens(s)|
    ensures Splits(s, before, Tokens(s)[i], after) && Counts(s, i, before, Tokens(s)[i], after)
    decreases |s|
  {
    hide IsSeparator, Splits, Counts, Tokens, NoSeparators, StartsApart;
    assert s != "" by { TokensNone(); }
    if IsSeparator(s[0]) {
      TokensSkip(s);
      var more;
      more, after := TokenParts(s[1..], i);
      before := [s[0]] + more;
      AroundSkip(s, i, more, Tokens(s)[i], after);
    } else {
      var w, rest := CutHead(s);
      if i == 0 {
        before, after := "", rest;
        SplitsFirst(w, rest);
        CountsFirst(s, w, rest);
      } else {
        var more;
        more, after := TokenParts(rest, i - 1);
        before := w + more;
        AroundLater(w, rest, i - 1, more, Tokens(s)[i], after);
      }
    }
  }

  lemma BehindSeparator(c: char, more: string)
    requires IsSeparator(c) && EndsApart(more)
    ensures EndsApart([c] + more)
  {
    hide IsSeparator;
  }

  lemma BehindToken(token: string, more: string, word: string, rest: string)
    requires token != "" && NoSeparators(token) && EndsApart(more) && StartsApart(rest)
    requires rest == more + word && word != "" && !IsSeparator(word[0])
    ensures EndsApart(token + more) && Tokens(token + more) == [token] + Tokens(more)
  {
    hide Tokens, IsSeparator;
    assert more != "" && more[0] == rest[0];
    TokensAppend(token, more);
    OneToken(token);
  }

  lemma GapIsSpace(rest: string, gap: string, value: string, after: string)
    requires StartsApart(rest) && Splits(rest, gap, value, after) && Counts(rest, 0, gap, value, after)
    ensures gap != "" && AllSeparators(gap)
  {
    NoTokens(gap);
    hide Tokens, IsSeparator;
  }

  lemma HeadHasNoComment(raw: string)
    ensures var n := IndexOf(raw, '#'); '#' !in raw[..n] && (raw[n..] == "" || raw[n..][0] == '#')
  {
  }

  lemma LineOfHead(p: Parts)
    ensures p.Line() == Head(p) + p.comment
  {
    Regroup(p.value, p.after, p.comment);
    Regroup(p.gap, p.value + p.after, p.comment);
    Regroup(p.id, p.gap + (p.value + p.after), p.comment);
    Regroup(p.before, p.id + (p.gap + (p.value + p.after)), p.comment);
  }

  /** A line that contributes an entry has good parts, with that id and a value that reads as that number. */
  lemma ReadsParted(num: Numerals, raw: string) returns (p: Parts)
    requires LineEntry(num, raw).Some?
    ensures WellParted(p) && p.Line() == raw
    ensures LineEntry(num, raw).value.id == p.id && num.read(p.value) == Some(LineEntry(num, raw).value.value)
  {
    var n := IndexOf(raw, '#');
    var head, comment := raw[..n], raw[n..];
    var tokens := Tokens(head);
    var i := FirstId(tokens);
    EntryOfTokens(num, raw);
    FirstIdExactly(tokens);
    HeadHasNoComment(raw);
    hide Tokens, LineEntry, FirstId, IsSeparator, IsId, IndexOf, AllSeparators;
    var before, rest := TokenParts(head, i);
    var gap, after := TokenParts(rest, 0);
    GapIsSpace(rest, gap, tokens[i + 1], after);
    p := Parts(before, tokens[i], gap, tokens[i + 1], after, comment);
    hide EndsApart, StartsApart, NoSeparators;
    assert raw == head + comment;
    assert p.Line() == Head(p) + p.comment by { LineOfHead(p); }
  }

  /**
   What any line contributes: an entry exactly when, before a comment, its first word that is an id
   is followed by a word that reads as a number, in whatever columns and with whatever separators.
   */
  lemma LineReadsExactly(num: Numerals, raw: string, e: Entry)
    ensures LineEntry(num, raw) == Some(e)
            <==> exists p: Parts ::
                   WellParted(p) && p.Line() == raw && p.id == e.id && num.read(p.value) == Some(e.value)
  {
    if LineEntry(num, raw) == Some(e) {
      var p := ReadsParted(num, raw);
    }
    if p: Parts :| WellParted(p) && p.Line() == raw && p.id == e.id && num.read(p.value) == Some(e.value) {
      PartedReads(num, p);
    }
  }

  // ----- any text -----

  /** The id of line `k` was listed on an earlier line. */
  predicate Repeats(num: Numerals, lines: seq<string>, k: nat) {
    k < |lines| && LineEntry(num, lines[k]).Some?
    && exists j :: 0 <= j < k && LineEntry(num, lines[j]).Some?
                   && LineEntry(num, lines[j]).value.id == LineEntry(num, lines[k]).value.id
  }

  /** The entries of the lines, in order. */
  function Collected(num: Numerals, lines: seq<string>): seq<Entry> {
    if lines == [] then []
    else
      var e := LineEntry(num, lines[|lines| - 1]);
      Collected(num, lines[..|lines| - 1]) + if e.Some? then [e.value] else []
  }

  lemma {:induction false} CollectedMentions(num: Numerals, lines: seq<string>, id: string)
    ensures Mentions(Collected(num, lines), id)
            <==> exists j :: 0 <= j < |lines| && LineEntry(num, lines[j]).Some?
                             && LineEntry(num, lines[j]).value.id == id
  {
    hide LineEntry, Mentions;
    if lines == [] {
      assert !Mentions([], id) by { NothingMentioned(id); }
    } else {
      var n := |lines| - 1;
      CollectedMentions(num, lines[..n], id);
      if LineEntry(num, lines[n]).Some? {
        MentionsSnoc(Collected(num, lines[..n]), LineEntry(num, lines[n]).value);
      } else {
        assert Collected(num, lines) == Collected(num, lines[..n]);
      }
      assert forall j :: 0 <= j < n ==> lines[..n][j] == lines[j];
    }
  }

  lemma NothingMentioned(id: string)
    ensures !Mentions([], id)
  {
  }

  lemma RepeatsMentions(num: Numerals, lines: seq<string>, k: nat)
    requires k < |lines| && LineEntry(num, lines[k]).Some?
    ensures Repeats(num, lines, k) <==> Mentions(Collected(num, lines[..k]), LineEntry(num, lines[k]).value.id)
  {
    CollectedMentions(num, lines[..k], LineEntry(num, lines[k]).value.id);
    hide LineEntry, Mentions, Collected;
    assert forall j :: 0 <= j < k ==> lines[..k][j] == lines[j];
  }

  /** As long as no id repeats, the scan has collected the entries of the lines behind it. */
  lemma {:induction false} ScanUpTo(num: Numerals, lines: seq<string>, k: nat)
    requires k <= |lines| && forall j :: 0 <= j < k ==> !Repeats(num, lines, j)
    ensures Scan(num, lines, 0, []) == Scan(num, lines[k..], k, Collected(num, lines[..k]))
  {
    hide LineEntry, Mentions, Repeats;
    if k == 0 {
      assert lines[0..] == lines && Collected(num, lines[..0]) == [];
    } else {
      var n := k - 1;
      ScanUpTo(num, lines, n);
      assert lines[n..][1..] == lines[k..] && lines[..k][..n] == lines[..n] && lines[n..][0] == lines[n];
      var before := Collected(num, lines[..n]);
      if LineEntry(num, lines[n]).Some? {
        RepeatsMentions(num, lines, n);
      } else {
        assert before + [] == before;
      }
    }
  }

  /**
   What parsing any text gives: the error that names the first repeated id and its line, counted from
   one; the error for a text without entries; or all its entries in the parser's order.
   */
  lemma ParseTextExactly(num: Numerals, le: (string, string) -> bool, input: string)
    ensures var lines, r := SplitLines(input), ParseText(num, le, input);
            && (forall k: nat :: Repeats(num, lines, k) && (forall j :: 0 <= j < k ==> !Repeats(num, lines, j)) ==>
                  r == Err(Duplicate(LineEntry(num, lines[k]).value.id, k + 1)))
            && ((forall k :: 0 <= k < |lines| ==> !Repeats(num, lines, k)) ==>
                  r == if forall k :: 0 <= k < |lines| ==> LineEntry(num, lines[k]) == None then Err(Empty)
                       else Ok(Sort(le, Collected(num, lines))))
  {
    hide LineEntry, Mentions, Sort, SplitLines;
    var lines := SplitLines(input);
    forall k: nat | Repeats(num, lines, k) && (forall j :: 0 <= j < k ==> !Repeats(num, lines, j))
      ensures ParseText(num, le, input) == Err(Duplicate(LineEntry(num, lines[k]).value.id, k + 1))
    {
      ScanUpTo(num, lines, k);
      RepeatsMentions(num, lines, k);
      assert lines[k..][0] == lines[k];
    }
    if forall k :: 0 <= k < |lines| ==> !Repeats(num, lines, k) {
      ScanUpTo(num, lines, |lines|);
      assert lines[|lines|..] == [] && lines[..|lines|] == lines;
      NothingCollected(num, lines);
    }
  }

  lemma {:induction false} NothingCollected(num: Numerals, lines: seq<string>)
    ensures Collected(num, lines) == [] <==> forall k :: 0 <= k < |lines| ==> LineEntry(num, lines[k]) == None
  {
    hide LineEntry;
    if lines != [] {
      NothingCollected(num, lines[..|lines| - 1]);
    }
  }

  /** The first character that is no white space. */
  predicate FirstSolid(s: string, i: nat) {
    i < |s| && !IsSpace(s[i]) && forall j :: 0 <= j < i ==> IsSpace(s[j])
  }

  lemma {:induction false} TrimStartAt(s: string)
    ensures TrimStart(s) == "" ==> forall i :: 0 <= i < |s| ==> IsSpace(s[i])
    ensures TrimStart(s) != "" ==>
              |TrimStart(s)| <= |s| && FirstSolid(s, |s| - |TrimStart(s)|)
              && TrimStart(s)[0] == s[|s| - |TrimStart(s)|]
  {
    hide IsSpace;
    if s != "" && IsSpace(s[0]) {
      TrimStartAt(s[1..]);
      assert forall i :: 0 < i < |s| ==> s[i] == s[1..][i - 1];
    }
  }

  /** A backup is taken as JSON exactly when its first character that is no white space opens an object or an array. */
  lemma JsonExactly(num: Numerals, le: (string, string) -> bool,
                    json: string -> Result<seq<Entry>, ParseError>, input: string)
    ensures ParseBackup(num, le, json, input)
            == if exists i: nat :: FirstSolid(input, i) && (input[i] == '{' || input[i] == '[') then json(input)
               else ParseText(num, le, input)
  {
    hide IsSpace, ParseText, TrimStart;
    TrimStartAt(input);
    var t := TrimStart(input);
    if t != "" {
      var k: nat := |input| - |t|;
      assert FirstSolid(input, k) && t[0] == input[k];
      forall i: nat | FirstSolid(input, i)
        ensures i == k
      {
      }
    }
  }
}
