/**
 The two text printers of parameter backups and the tolerant parser they share.

 How JavaScript prints and reads numbers is a parameter (`Numerals`). Printing rounds to seven
 digits, so a value need not read back as itself; the results say what it reads back as.
 `localeCompare` is a parameter too.
 */
module BackupText {
  import opened Collections
  import Sorting
  import opened Texts

  datatype Entry = Entry(id: string, value: real)

  datatype Numerals = Numerals(print7: real -> string, read: string -> Option<real>)

  datatype ParseError = Duplicate(id: string, line: nat) | Empty | BadJson

  // ----- characters -----

  predicate IsSeparator(c: char) {
    IsSpace(c) || c == ','
  }

  predicate IsIdStart(c: char) {
    'A' <= c <= 'Z'
  }

  predicate IsIdChar(c: char) {
    'A' <= c <= 'Z' || '0' <= c <= '9' || c == '_'
  }

  /** The parser's pattern for a parameter id: a capital, then capitals, digits and underscores. */
  predicate IsId(token: string) {
    token != "" && IsIdStart(token[0]) && forall i :: 0 <= i < |token| ==> IsIdChar(token[i])
  }

  // ----- splitting -----

  function StripReturn(line: string): string {
    if line != "" && line[|line| - 1] == '\r' then line[..|line| - 1] else line
  }

  /** `input.split(/\r?\n/)`. */
  function SplitLines(s: string): seq<string> {
    var i := IndexOf(s, '\n');
    if i == |s| then [s] else [StripReturn(s[..i])] + SplitLines(s[i + 1..])
  }

  function TokenLength(s: string): (n: nat)
    ensures n <= |s|
    ensures forall i :: 0 <= i < n ==> !IsSeparator(s[i])
  {
    if s == "" || IsSeparator(s[0]) then 0 else 1 + TokenLength(s[1..])
  }

  /** `line.split(/[\s,]+/)` without its empty tokens. */
  function Tokens(s: string): seq<string>
    decreases |s|
  {
    if s == "" then []
    else if IsSeparator(s[0]) then Tokens(s[1..])
    else [s[..TokenLength(s)]] + Tokens(s[TokenLength(s)..])
  }

  // ----- the parser -----

  /** The index of the first token that is an id, or the number of tokens. */
  function FirstId(tokens: seq<string>): (i: nat)
    ensures i <= |tokens|
  {
    if tokens == [] || IsId(tokens[0]) then 0 else 1 + FirstId(tokens[1..])
  }

  /** What one raw line contributes. */
  function LineEntry(num: Numerals, raw: string): Option<Entry> {
    var line := Trim(raw[..IndexOf(raw, '#')]);
    if line == "" then None
    else
      var tokens := Tokens(line);
      if |tokens| < 2 then None
      else
        var i := FirstId(tokens);
        if i >= |tokens| - 1 then None
        else match num.read(tokens[i + 1])
             case None => None
             case Some(value) => Some(Entry(tokens[i], value))
  }

  predicate Mentions(entries: seq<Entry>, id: string) {
    exists i :: 0 <= i < |entries| && entries[i].id == id
  }

  /** The parser's loop over the lines still to come. */
  function Scan(num: Numerals, lines: seq<string>, lineNumber: nat, entries: seq<Entry>)
      : Result<seq<Entry>, ParseError>
    decreases |lines|
  {
    if lines == [] then Ok(entries)
    else match LineEntry(num, lines[0])
         case None => Scan(num, lines[1..], lineNumber + 1, entries)
         case Some(e) =>
           if Mentions(entries, e.id) then Err(Duplicate(e.id, lineNumber + 1))
           else Scan(num, lines[1..], lineNumber + 1, entries + [e])
  }

  function ById(le: (string, string) -> bool): (Entry, Entry) -> bool {
    Sorting.By((e: Entry) => e.id, le)
  }

  function Sort(le: (string, string) -> bool, entries: seq<Entry>): seq<Entry> {
    Sorting.Sort(ById(le), entries)
  }

  function ParseText(num: Numerals, le: (string, string) -> bool, input: string): Result<seq<Entry>, ParseError> {
    match Scan(num, SplitLines(input), 0, [])
    case Err(e) => Err(e)
    case Ok(entries) => if entries == [] then Err(Empty) else Ok(Sort(le, entries))
  }

  /** `parseParameterBackup`; `json` stands for the JSON branch. */
  function ParseBackup(num: Numerals, le: (string, string) -> bool,
                       json: string -> Result<seq<Entry>, ParseError>, input: string)
      : Result<seq<Entry>, ParseError>
  {
    var trimmed := TrimStart(input);
    if trimmed != "" && (trimmed[0] == '{' || trimmed[0] == '[') then json(input) else ParseText(num, le, input)
  }

  /** `parseTextParameterBackup`. */
  method ParseTextBackup(num: Numerals, le: (string, string) -> bool, input: string)
      returns (r: Result<seq<Entry>, ParseError>)
    ensures r == ParseText(num, le, input)
  {
    var lines := SplitLines(input);
    var entries: seq<Entry> := [];
    var seenIds: set<string> := {};
    var lineNumber := 0;
    while lineNumber < |lines|
      invariant 0 <= lineNumber <= |lines|
      invariant forall id :: id in seenIds <==> Mentions(entries, id)
      invariant Scan(num, lines, 0, []) == Scan(num, lines[lineNumber..], lineNumber, entries)
    {
      hide LineEntry;
      var found := LineEntry(num, lines[lineNumber]);
      assert lines[lineNumber..][1..] == lines[lineNumber + 1..];
      lineNumber := lineNumber + 1;
      if found.Some? {
        var e := found.value;
        if e.id in seenIds {
          return Err(Duplicate(e.id, lineNumber));
        }
        MentionsSnoc(entries, e);
        seenIds := seenIds + {e.id};
        entries := entries + [e];
      }
    }
    assert lines[lineNumber..] == [];
    if entries == [] {
      return Err(Empty);
    }
    r := Ok(Sort(le, entries));
  }

  lemma MentionsSnoc(entries: seq<Entry>, e: Entry)
    ensures forall id :: Mentions(entries + [e], id) <==> Mentions(entries, id) || id == e.id
  {
    forall id
      ensures Mentions(entries + [e], id) <==> Mentions(entries, id) || id == e.id
    {
      var all := entries + [e];
      if id == e.id {
        assert all[|entries|].id == id;
      }
      if Mentions(entries, id) {
        var i :| 0 <= i < |entries| && entries[i].id == id;
        assert all[i].id == id;
      }
    }
  }

  // ----- the printers -----

  datatype Vehicle = Vehicle(systemId: nat, componentId: nat, flightMode: string)

  datatype Hardware = Hardware(
    vendorId: Option<nat>, productId: Option<nat>, boardType: Option<nat>, boardVersion: Option<nat>,
    uid: Option<string>)

  datatype Backup = Backup(
    application: string, appVersion: Option<string>, appGitHash: Option<string>, appGitBranch: Option<string>,
    firmware: string, firmwareVersion: Option<string>, firmwareGitHash: Option<string>, exportedAt: string,
    vehicle: Option<Vehicle>, hardware: Option<Hardware>, parameterCount: nat, parameters: seq<Entry>)

  /** `n.toString(16).padStart(4, '0')`. */
  function Hex4(n: nat): string {
    var s := Digits(n, 16);
    seq(if |s| < 4 then 4 - |s| else 0, _ => '0') + s
  }

  /** A JavaScript-truthy optional string. */
  predicate Present(s: Option<string>) {
    s.Some? && s.value != ""
  }

  function OptionalPart(before: string, s: Option<string>, after: string): string {
    if Present(s) then before + s.value + after else ""
  }

  function CommitPart(b: Backup): string {
    if Present(b.appGitHash) && Present(b.appGitBranch)
    then OptionalPart(" (", b.appGitHash, "") + OptionalPart(", ", b.appGitBranch, ")")
    else OptionalPart(" (", b.appGitHash, ")") + OptionalPart(" (", b.appGitBranch, ")")
  }

  function AppLine(b: Backup): string {
    "# " + b.application + OptionalPart(" v", b.appVersion, "") + CommitPart(b)
  }

  function FirmwareLines(b: Backup): seq<string> {
    if b.firmware == "" || b.firmware == "Unknown" then []
    else ["# Firmware: " + b.firmware + OptionalPart(" ", b.firmwareVersion, "")
          + OptionalPart(" (", b.firmwareGitHash, ")")]
  }

  function VehicleLines(b: Backup): seq<string> {
    match b.vehicle
    case None => []
    case Some(v) =>
      ["# Vehicle: sysid=" + Decimal(v.systemId) + " compid=" + Decimal(v.componentId) + " mode=" + v.flightMode]
  }

  function BoardLine(prefix: string, text: Option<string>): seq<string> {
    if text.Some? then ["# Board: " + prefix + text.value] else []
  }

  function MapOption(n: Option<nat>, f: nat -> string): Option<string> {
    if n.Some? then Some(f(n.value)) else None
  }

  function HardwareLines(b: Backup): seq<string> {
    match b.hardware
    case None => []
    case Some(hw) =>
      BoardLine("vendor=0x", MapOption(hw.vendorId, Hex4))
      + BoardLine("product=0x", MapOption(hw.productId, Hex4))
      + BoardLine("boardType=", MapOption(hw.boardType, Decimal))
      + BoardLine("boardVersion=", MapOption(hw.boardVersion, Decimal))
      + BoardLine("uid=", if Present(hw.uid) then hw.uid else None)
  }

  /** `buildBackupHeaderComments`. */
  function HeaderLines(b: Backup): seq<string> {
    [AppLine(b)] + ["# Exported: " + b.exportedAt] + FirmwareLines(b) + VehicleLines(b) + HardwareLines(b)
    + ["# Parameters: " + Decimal(b.parameterCount)]
  }

  /** `lines.join('\n') + '\n'` for a non-empty list: every line followed by a newline. */
  function Unlines(lines: seq<string>): string {
    if lines == [] then "" else lines[0] + "\n" + Unlines(lines[1..])
  }

  function ParmLine(num: Numerals, e: Entry): string {
    e.id + "," + num.print7(e.value)
  }

  function ParamsLine(num: Numerals, systemId: nat, componentId: nat, e: Entry): string {
    Decimal(systemId) + "\t" + Decimal(componentId) + "\t" + e.id + "\t" + num.print7(e.value) + "\t9"
  }

  function SystemId(b: Backup): nat {
    if b.vehicle.Some? then b.vehicle.value.systemId else 1
  }

  function ComponentId(b: Backup): nat {
    if b.vehicle.Some? then b.vehicle.value.componentId else 1
  }

  function ParmLines(num: Numerals, entries: seq<Entry>): (lines: seq<string>)
    ensures |lines| == |entries|
  {
    seq(|entries|, i requires 0 <= i < |entries| => ParmLine(num, entries[i]))
  }

  function ParamsLines(num: Numerals, systemId: nat, componentId: nat, entries: seq<Entry>): (lines: seq<string>)
    ensures |lines| == |entries|
  {
    seq(|entries|, i requires 0 <= i < |entries| => ParamsLine(num, systemId, componentId, entries[i]))
  }

  function ParamsHeader(b: Backup): seq<string> {
    ["# Onboard parameters for vehicle " + Decimal(SystemId(b))] + HeaderLines(b)
    + ["# Vehicle-Id Component-Id Name Value Type"]
  }

  function PrintParm(num: Numerals, b: Backup): string {
    Unlines(HeaderLines(b) + ParmLines(num, b.parameters))
  }

  function PrintParams(num: Numerals, b: Backup): string {
    Unlines(ParamsHeader(b) + ParamsLines(num, SystemId(b), ComponentId(b), b.parameters))
  }

  /** `serializeParameterBackupAsParm`. */
  method SerializeAsParm(num: Numerals, b: Backup) returns (text: string)
    ensures text == PrintParm(num, b)
  {
    hide HeaderLines;
    var lines := HeaderLines(b);
    var i := 0;
    while i < |b.parameters|
      invariant 0 <= i <= |b.parameters|
      invariant lines == HeaderLines(b) + ParmLines(num, b.parameters)[..i]
    {
      lines := lines + [ParmLine(num, b.parameters[i])];
      i := i + 1;
    }
    assert ParmLines(num, b.parameters)[..i] == ParmLines(num, b.parameters);
    text := Unlines(lines);
  }

  /** `serializeParameterBackupAsParams`. */
  method SerializeAsParams(num: Numerals, b: Backup) returns (text: string)
    ensures text == PrintParams(num, b)
  {
    hide ParamsHeader;
    var lines := ParamsHeader(b);
    var i := 0;
    while i < |b.parameters|
      invariant 0 <= i <= |b.parameters|
      invariant lines == ParamsHeader(b) + ParamsLines(num, SystemId(b), ComponentId(b), b.parameters)[..i]
    {
      lines := lines + [ParamsLine(num, SystemId(b), ComponentId(b), b.parameters[i])];
      i := i + 1;
    }
    assert ParamsLines(num, SystemId(b), ComponentId(b), b.parameters)[..i]
           == ParamsLines(num, SystemId(b), ComponentId(b), b.parameters);
    text := Unlines(lines);
  }

  // ----- lines survive printing and splitting -----

  predicate OneLine(s: string) {
    '\n' !in s
  }

  function StripEach(lines: seq<string>): (s: seq<string>)
    ensures |s| == |lines|
  {
    seq(|lines|, i requires 0 <= i < |lines| => StripReturn(lines[i]))
  }

  lemma SplitCons(line: string, rest: string)
    requires OneLine(line)
    ensures SplitLines(line + "\n" + rest) == [StripReturn(line)] + SplitLines(rest)
  {
    hide IndexOf, StripReturn;
    var s := line + "\n" + rest;
    IndexOfSplit(line, '\n', rest);
    assert s == line + ['\n'] + rest;
    assert s[..|line|] == line && s[|line| + 1..] == rest;
  }

  lemma SplitNothing()
    ensures SplitLines("") == [""]
  {
  }

  /** What was printed line by line splits back into those lines. */
  lemma {:induction false} SplitUnlines(lines: seq<string>)
    requires forall i :: 0 <= i < |lines| ==> OneLine(lines[i])
    ensures SplitLines(Unlines(lines)) == StripEach(lines) + [""]
  {
    hide SplitLines, StripReturn, OneLine;
    if lines == [] {
      SplitNothing();
      assert StripEach(lines) == [];
    } else {
      SplitCons(lines[0], Unlines(lines[1..]));
      SplitUnlines(lines[1..]);
      assert StripEach(lines) == [StripReturn(lines[0])] + StripEach(lines[1..]);
    }
  }

  // ----- comments contribute nothing -----

  predicate IsComment(line: string) {
    line != "" && line[0] == '#'
  }

  lemma CommentSkipped(num: Numerals, line: string)
    requires IsComment(line) || line == ""
    ensures LineEntry(num, StripReturn(line)) == None
  {
    var raw := StripReturn(line);
    assert raw[..IndexOf(raw, '#')] == "";
    assert Trim("") == "";
  }

  /** Comment lines, wherever they come from, leave the scan where it was. */
  lemma {:induction false} SkipComments(num: Numerals, comments: seq<string>, rest: seq<string>, n: nat,
                                        entries: seq<Entry>)
    requires forall i :: 0 <= i < |comments| ==> LineEntry(num, comments[i]) == None
    ensures Scan(num, comments + rest, n, entries) == Scan(num, rest, n + |comments|, entries)
    decreases |comments|
  {
    hide LineEntry;
    if comments == [] {
      assert comments + rest == rest;
    } else {
      assert (comments + rest)[1..] == comments[1..] + rest;
      SkipComments(num, comments[1..], rest, n + 1, entries);
    }
  }

  /** Free text in the header contains no line break. */
  ghost predicate CleanFields(b: Backup) {
    && OneLine(b.application) && OneLine(b.firmware) && OneLine(b.exportedAt)
    && (b.appVersion.Some? ==> OneLine(b.appVersion.value))
    && (b.appGitHash.Some? ==> OneLine(b.appGitHash.value))
    && (b.appGitBranch.Some? ==> OneLine(b.appGitBranch.value))
    && (b.firmwareVersion.Some? ==> OneLine(b.firmwareVersion.value))
    && (b.firmwareGitHash.Some? ==> OneLine(b.firmwareGitHash.value))
    && (b.vehicle.Some? ==> OneLine(b.vehicle.value.flightMode))
    && (b.hardware.Some? && b.hardware.value.uid.Some? ==> OneLine(b.hardware.value.uid.value))
  }

  lemma DigitPlain(n: nat)
    requires n < 16
    ensures '0' <= Digit(n) <= '9' || 'a' <= Digit(n) <= 'f'
  {
  }

  lemma {:induction false} DigitsPlain(n: nat, base: nat)
    requires 2 <= base <= 16
    ensures forall c :: c in Digits(n, base) ==> '0' <= c <= '9' || 'a' <= c <= 'f'
  {
    hide Digit;
    DigitPlain(n % base);
    if n >= base {
      DigitsPlain(n / base, base);
    }
  }

  ghost predicate CommentLines(lines: seq<string>) {
    forall i :: 0 <= i < |lines| ==> IsComment(lines[i]) && OneLine(lines[i])
  }

  lemma CommentsAppend(a: seq<string>, b: seq<string>)
    requires CommentLines(a) && CommentLines(b)
    ensures CommentLines(a + b)
  {
  }

  lemma BoardLineComment(prefix: string, text: Option<string>)
    requires OneLine(prefix) && (text.Some? ==> OneLine(text.value))
    ensures CommentLines(BoardLine(prefix, text))
  {
  }

  lemma NumbersOneLine(n: nat)
    ensures OneLine(Decimal(n)) && OneLine(Hex4(n))
  {
    hide Digits;
    DigitsPlain(n, 10);
    DigitsPlain(n, 16);
  }

  lemma NumberOneLine(n: Option<nat>)
    ensures var d := MapOption(n, Decimal); d.Some? ==> OneLine(d.value)
    ensures var h := MapOption(n, Hex4); h.Some? ==> OneLine(h.value)
  {
    hide Decimal, Hex4;
    if n.Some? {
      NumbersOneLine(n.value);
    }
  }

  lemma HardwareComments(b: Backup)
    requires CleanFields(b)
    ensures CommentLines(HardwareLines(b))
  {
    hide CommentLines, BoardLine, MapOption, Decimal, Hex4;
    if b.hardware.Some? {
      var hw := b.hardware.value;
      NumberOneLine(hw.vendorId);
      NumberOneLine(hw.productId);
      NumberOneLine(hw.boardType);
      NumberOneLine(hw.boardVersion);
      var vendor := BoardLine("vendor=0x", MapOption(hw.vendorId, Hex4));
      var product := BoardLine("product=0x", MapOption(hw.productId, Hex4));
      var boardType := BoardLine("boardType=", MapOption(hw.boardType, Decimal));
      var version := BoardLine("boardVersion=", MapOption(hw.boardVersion, Decimal));
      var uid := BoardLine("uid=", if Present(hw.uid) then hw.uid else None);
      BoardLineComment("vendor=0x", MapOption(hw.vendorId, Hex4));
      BoardLineComment("product=0x", MapOption(hw.productId, Hex4));
      BoardLineComment("boardType=", MapOption(hw.boardType, Decimal));
      BoardLineComment("boardVersion=", MapOption(hw.boardVersion, Decimal));
      BoardLineComment("uid=", if Present(hw.uid) then hw.uid else None);
      CommentsAppend(vendor, product);
      CommentsAppend(vendor + product, boardType);
      CommentsAppend(vendor + product + boardType, version);
      CommentsAppend(vendor + product + boardType + version, uid);
    } else {
      NoComments();
    }
  }

  lemma NoComments()
    ensures CommentLines([])
  {
  }

  lemma VehicleComments(b: Backup)
    requires CleanFields(b)
    ensures CommentLines(VehicleLines(b))
  {
    hide Decimal;
    if b.vehicle.Some? {
      NumbersOneLine(b.vehicle.value.systemId);
      NumbersOneLine(b.vehicle.value.componentId);
    }
  }

  lemma OneComment(line: string)
    requires IsComment(line) && OneLine(line)
    ensures CommentLines([line])
  {
  }

  lemma ConcatOneLine(a: string, b: string)
    requires OneLine(a) && OneLine(b)
    ensures OneLine(a + b)
  {
  }

  lemma OptionalPartOneLine(before: string, s: Option<string>, after: string)
    requires OneLine(before) && OneLine(after) && (s.Some? ==> OneLine(s.value))
    ensures OneLine(OptionalPart(before, s, after))
  {
  }

  lemma AppComment(b: Backup)
    requires CleanFields(b)
    ensures IsComment(AppLine(b)) && OneLine(AppLine(b))
  {
    var version, commit := OptionalPart(" v", b.appVersion, ""), CommitPart(b);
    OptionalPartOneLine(" v", b.appVersion, "");
    OptionalPartOneLine(" (", b.appGitHash, "");
    OptionalPartOneLine(" (", b.appGitHash, ")");
    OptionalPartOneLine(", ", b.appGitBranch, ")");
    OptionalPartOneLine(" (", b.appGitBranch, ")");
    ConcatOneLine("# ", b.application);
    ConcatOneLine(OptionalPart(" (", b.appGitHash, ""), OptionalPart(", ", b.appGitBranch, ")"));
    ConcatOneLine(OptionalPart(" (", b.appGitHash, ")"), OptionalPart(" (", b.appGitBranch, ")"));
    ConcatOneLine("# " + b.application, version);
    ConcatOneLine("# " + b.application + version, commit);
    hide OneLine, OptionalPart;
    assert AppLine(b) == "# " + b.application + version + commit;
    assert AppLine(b)[0] == '#';
  }

  lemma FirmwareComments(b: Backup)
    requires CleanFields(b)
    ensures CommentLines(FirmwareLines(b))
  {
    hide OptionalPart;
    var version, commit := OptionalPart(" ", b.firmwareVersion, ""), OptionalPart(" (", b.firmwareGitHash, ")");
    OptionalPartOneLine(" ", b.firmwareVersion, "");
    OptionalPartOneLine(" (", b.firmwareGitHash, ")");
    var line := "# Firmware: " + b.firmware + version + commit;
    ConcatOneLine("# Firmware: ", b.firmware);
    ConcatOneLine("# Firmware: " + b.firmware, version);
    ConcatOneLine("# Firmware: " + b.firmware + version, commit);
    OneComment(line);
    NoComments();
  }

  lemma HeaderIsComments(b: Backup)
    requires CleanFields(b)
    ensures CommentLines(HeaderLines(b))
  {
    AppComment(b);
    ConcatOneLine("# Exported: ", b.exportedAt);
    hide Decimal, HardwareLines, VehicleLines, FirmwareLines, AppLine, CommentLines, CleanFields, OneLine;
    FirmwareComments(b);
    VehicleComments(b);
    HardwareComments(b);
    NumbersOneLine(b.parameterCount);
    ConcatOneLine("# Parameters: ", Decimal(b.parameterCount));
    var app, exported := [AppLine(b)], ["# Exported: " + b.exportedAt];
    var count := ["# Parameters: " + Decimal(b.parameterCount)];
    OneComment(AppLine(b));
    OneComment(exported[0]);
    OneComment(count[0]);
    CommentsAppend(app, exported);
    CommentsAppend(app + exported, FirmwareLines(b));
    CommentsAppend(app + exported + FirmwareLines(b), VehicleLines(b));
    CommentsAppend(app + exported + FirmwareLines(b) + VehicleLines(b), HardwareLines(b));
    CommentsAppend(app + exported + FirmwareLines(b) + VehicleLines(b) + HardwareLines(b), count);
  }

  /** Every header line, of either format, is a comment on one line. */
  lemma HeaderComments(b: Backup)
    requires CleanFields(b)
    ensures CommentLines(HeaderLines(b)) && CommentLines(ParamsHeader(b))
  {
    HeaderIsComments(b);
    NumbersOneLine(SystemId(b));
    ConcatOneLine("# Onboard parameters for vehicle ", Decimal(SystemId(b)));
    hide Decimal, HeaderLines, CommentLines, CleanFields, OneLine, SystemId;
    var first := ["# Onboard parameters for vehicle " + Decimal(SystemId(b))];
    var columns := ["# Vehicle-Id Component-Id Name Value Type"];
    assert OneLine(columns[0]) by {
      ColumnsOneLine();
    }
    OneComment(first[0]);
    OneComment(columns[0]);
    CommentsAppend(first, HeaderLines(b));
    CommentsAppend(first + HeaderLines(b), columns);
  }

  lemma ColumnsOneLine()
    ensures OneLine("# Vehicle-Id Component-Id Name Value Type")
  {
  }

  // ----- printed entries are read back -----

  /** A printed number is one token without a comment sign. */
  ghost predicate IsToken(s: string) {
    s != "" && forall i :: 0 <= i < |s| ==> !IsSeparator(s[i]) && s[i] != '#'
  }

  /** A value prints as a token that reads as some number. */
  ghost predicate IsReadable(num: Numerals, value: real) {
    IsToken(num.print7(value)) && num.read(num.print7(value)).Some?
  }

  /** What a printed value reads back as. */
  function Rounded(num: Numerals, value: real): real {
    var back := num.read(num.print7(value));
    if back.Some? then back.value else value
  }

  function RoundEntry(num: Numerals, e: Entry): Entry {
    Entry(e.id, Rounded(num, e.value))
  }

  /** The entries as the text files keep them. */
  function RoundAll(num: Numerals, entries: seq<Entry>): (r: seq<Entry>)
    ensures |r| == |entries|
  {
    seq(|entries|, i requires 0 <= i < |entries| => RoundEntry(num, entries[i]))
  }

  lemma {:induction false} TokenLengthOf(token: string, rest: string)
    requires IsToken(token) || token == ""
    requires rest == "" || IsSeparator(rest[0])
    ensures TokenLength(token + rest) == |token|
  {
    if token == "" {
      assert token + rest == rest;
    } else {
      assert (token + rest)[1..] == token[1..] + rest;
      TokenLengthOf(token[1..], rest);
    }
  }

  lemma TokensCons(token: string, separator: char, rest: string)
    requires IsToken(token) && IsSeparator(separator)
    ensures Tokens(token + [separator] + rest) == [token] + Tokens(rest)
  {
    var s := token + [separator] + rest;
    assert s == token + ([separator] + rest);
    TokenLengthOf(token, [separator] + rest);
    assert s[..|token|] == token && s[|token|..] == [separator] + rest;
    assert ([separator] + rest)[1..] == rest;
  }

  lemma TokensLast(token: string)
    requires IsToken(token)
    ensures Tokens(token) == [token]
  {
    assert token + "" == token;
    TokenLengthOf(token, "");
    assert token[|token|..] == "" && token[..|token|] == token;
  }

  lemma IdIsToken(id: string)
    requires IsId(id)
    ensures IsToken(id)
  {
  }

  lemma {:induction false} NoHash(s: string)
    requires '#' !in s
    ensures IndexOf(s, '#') == |s|
  {
    if s != "" {
      NoHash(s[1..]);
    }
  }

  /** A solid line without a comment sign reaches the tokenizer unchanged. */
  lemma SolidLine(num: Numerals, s: string)
    requires s != "" && '#' !in s && !IsSpace(s[0]) && !IsSpace(s[|s| - 1])
    ensures Trim(s[..IndexOf(s, '#')]) == s && StripReturn(s) == s
  {
    NoHash(s);
    TrimSolid(s);
    assert s[..|s|] == s;
  }

  /** A `.parm` line reads back as its entry with the value rounded. */
  lemma ParmLineReads(num: Numerals, e: Entry)
    requires IsId(e.id) && IsReadable(num, e.value)
    ensures OneLine(ParmLine(num, e))
    ensures LineEntry(num, StripReturn(ParmLine(num, e))) == Some(RoundEntry(num, e))
  {
    var v := num.print7(e.value);
    IdIsToken(e.id);
    var line := e.id + "," + v;
    SolidLine(num, line);
    TokensCons(e.id, ',', v);
    TokensLast(v);
    hide Tokens, Trim, IndexOf;
    assert Tokens(line) == [e.id, v];
    assert FirstId([e.id, v]) == 0;
  }

  lemma DecimalIsToken(n: nat)
    ensures IsToken(Decimal(n)) && !IsId(Decimal(n))
  {
    DecimalDigits(n);
  }

  lemma ParamsTokens(a: string, b: string, c: string, d: string)
    requires IsToken(a) && IsToken(b) && IsToken(c) && IsToken(d)
    ensures Tokens(a + "\t" + b + "\t" + c + "\t" + d + "\t9") == [a, b, c, d, "9"]
  {
    hide Tokens;
    TokensLast("9");
    TokensCons(d, '\t', "9");
    TokensCons(c, '\t', d + "\t9");
    TokensCons(b, '\t', c + "\t" + (d + "\t9"));
    TokensCons(a, '\t', b + "\t" + (c + "\t" + (d + "\t9")));
    assert d + "\t" + "9" == d + "\t9";
    assert a + "\t" + b + "\t" + c + "\t" + d + "\t9" == a + "\t" + (b + "\t" + (c + "\t" + (d + "\t9")));
    assert [c] + ([d] + ["9"]) == [c, d, "9"] && [b] + [c, d, "9"] == [b, c, d, "9"];
    assert [a] + [b, c, d, "9"] == [a, b, c, d, "9"];
  }

  /** A `.params` line has five columns and does too; ids of the vehicle and the type column do not leak in. */
  lemma ParamsLineReads(num: Numerals, systemId: nat, componentId: nat, e: Entry)
    requires IsId(e.id) && IsReadable(num, e.value)
    ensures OneLine(ParamsLine(num, systemId, componentId, e))
    ensures Tokens(ParamsLine(num, systemId, componentId, e))
            == [Decimal(systemId), Decimal(componentId), e.id, num.print7(e.value), "9"]
    ensures LineEntry(num, StripReturn(ParamsLine(num, systemId, componentId, e))) == Some(RoundEntry(num, e))
  {
    hide Decimal, Tokens, IndexOf, Trim, FirstId;
    var a, b, v := Decimal(systemId), Decimal(componentId), num.print7(e.value);
    DecimalIsToken(systemId);
    DecimalIsToken(componentId);
    IdIsToken(e.id);
    var line := ParamsLine(num, systemId, componentId, e);
    assert line[0] == a[0] && line[|line| - 1] == '9';
    SolidLine(num, line);
    ParamsTokens(a, b, e.id, v);
    ThirdIsId(a, b, e.id, v);
  }

  lemma ThirdIsId(a: string, b: string, id: string, v: string)
    requires !IsId(a) && !IsId(b) && IsId(id)
    ensures FirstId([a, b, id, v, "9"]) == 2
  {
    hide IsId;
    var t, u, w := [a, b, id, v, "9"], [b, id, v, "9"], [id, v, "9"];
    assert t[1..] == u && u[1..] == w;
    assert FirstId(w) == 0;
    assert FirstId(u) == 1;
  }

  // ----- whole files -----

  ghost predicate Distinct(entries: seq<Entry>) {
    forall i, j :: 0 <= i < j < |entries| ==> entries[i].id != entries[j].id
  }

  ghost predicate Printable(num: Numerals, entries: seq<Entry>) {
    forall i :: 0 <= i < |entries| ==> IsId(entries[i].id) && IsReadable(num, entries[i].value)
  }

  /** Do these lines contribute exactly these entries, one each? */
  ghost predicate Carries(num: Numerals, lines: seq<string>, entries: seq<Entry>) {
    |lines| == |entries| && forall i :: 0 <= i < |lines| ==> LineEntry(num, lines[i]) == Some(entries[i])
  }

  /** Scanning entry lines collects them all if no id repeats, and is an error otherwise. */
  lemma {:induction false} ScanEntries(num: Numerals, lines: seq<string>, entries: seq<Entry>, n: nat, seen: seq<Entry>)
    requires Carries(num, lines, entries) && Distinct(seen)
    ensures var r := Scan(num, lines + [""], n, seen);
            if Distinct(seen + entries) then r == Ok(seen + entries) else r.Err?
    decreases |lines|
  {
    hide LineEntry;
    if lines == [] {
      CommentSkipped(num, "");
      assert StripReturn("") == "" && lines + [""] == [""] && seen + entries == seen;
      assert [""][1..] == [];
    } else {
      var e := entries[0];
      assert (lines + [""])[1..] == lines[1..] + [""];
      assert seen + entries == (seen + [e]) + entries[1..];
      if Mentions(seen, e.id) {
        var i :| 0 <= i < |seen| && seen[i].id == e.id;
        assert (seen + entries)[i] == seen[i] && (seen + entries)[|seen|] == e;
      } else {
        assert Distinct(seen + [e]);
        ScanEntries(num, lines[1..], entries[1..], n + 1, seen + [e]);
      }
    }
  }

  lemma SplitFile(header: seq<string>, lines: seq<string>)
    requires CommentLines(header) && forall i :: 0 <= i < |lines| ==> OneLine(lines[i])
    ensures SplitLines(Unlines(header + lines)) == StripEach(header) + (StripEach(lines) + [""])
  {
    hide SplitLines, Unlines, StripReturn, OneLine;
    var all := header + lines;
    forall i | 0 <= i < |all|
      ensures OneLine(all[i])
    {
    }
    SplitUnlines(all);
    assert StripEach(all) == StripEach(header) + StripEach(lines);
  }

  lemma ScanFile(num: Numerals, header: seq<string>, lines: seq<string>, entries: seq<Entry>)
    requires CommentLines(header) && Carries(num, lines, entries)
    ensures var r := Scan(num, StripEach(header) + (lines + [""]), 0, []);
            if Distinct(entries) then r == Ok(entries) else r.Err?
  {
    hide LineEntry, Scan, StripReturn, OneLine, IsComment;
    var comments := StripEach(header);
    forall i | 0 <= i < |comments|
      ensures LineEntry(num, comments[i]) == None
    {
      CommentSkipped(num, header[i]);
    }
    SkipComments(num, comments, lines + [""], 0, []);
    ScanEntries(num, lines, entries, |comments|, []);
    assert [] + entries == entries;
  }

  /** Lines that each print one entry, below any comments: read back all of them, unless an id repeats. */
  lemma FileReads(num: Numerals, le: (string, string) -> bool, header: seq<string>, lines: seq<string>,
                  entries: seq<Entry>)
    requires CommentLines(header)
    requires |lines| == |entries|
    requires forall i :: 0 <= i < |lines| ==>
               OneLine(lines[i]) && LineEntry(num, StripReturn(lines[i])) == Some(entries[i])
    ensures var r := ParseText(num, le, Unlines(header + lines));
            && (r.Ok? <==> entries != [] && Distinct(entries))
            && (r.Ok? ==> r == Ok(Sort(le, entries)))
            && (entries == [] ==> r == Err(Empty))
  {
    hide LineEntry, SplitLines, Unlines, Scan, StripReturn, Sort, OneLine, Distinct, CommentLines;
    SplitFile(header, lines);
    assert Carries(num, StripEach(lines), entries);
    ScanFile(num, header, StripEach(lines), entries);
    if entries == [] {
      NothingRepeats();
    }
  }

  lemma NothingRepeats()
    ensures Distinct([])
  {
  }

  lemma RoundKeepsDistinct(num: Numerals, entries: seq<Entry>)
    ensures Distinct(RoundAll(num, entries)) <==> Distinct(entries)
  {
    var rounded := RoundAll(num, entries);
    assert forall i :: 0 <= i < |entries| ==> rounded[i].id == entries[i].id;
  }

  /**
   Printing as `.parm` and parsing: succeeds exactly when there is an entry and no id repeats,
   and then returns exactly the entries, rounded, in the parser's order.
   */
  lemma ParmRoundTrip(num: Numerals, le: (string, string) -> bool, b: Backup)
    requires CleanFields(b) && Printable(num, b.parameters)
    ensures var r := ParseText(num, le, PrintParm(num, b));
            && (r.Ok? <==> b.parameters != [] && Distinct(b.parameters))
            && (r.Ok? ==> r == Ok(Sort(le, RoundAll(num, b.parameters))))
            && (b.parameters == [] ==> r == Err(Empty))
  {
    hide LineEntry, Unlines, HeaderLines, ParseText, ParmLine, Sort, RoundEntry, Distinct;
    HeaderComments(b);
    forall i | 0 <= i < |b.parameters|
      ensures OneLine(ParmLine(num, b.parameters[i]))
      ensures LineEntry(num, StripReturn(ParmLine(num, b.parameters[i]))) == Some(RoundEntry(num, b.parameters[i]))
    {
      ParmLineReads(num, b.parameters[i]);
    }
    RoundKeepsDistinct(num, b.parameters);
    FileReads(num, le, HeaderLines(b), ParmLines(num, b.parameters), RoundAll(num, b.parameters));
  }

  /** The same for `.params`. */
  lemma ParamsRoundTrip(num: Numerals, le: (string, string) -> bool, b: Backup)
    requires CleanFields(b) && Printable(num, b.parameters)
    ensures var r := ParseText(num, le, PrintParams(num, b));
            && (r.Ok? <==> b.parameters != [] && Distinct(b.parameters))
            && (r.Ok? ==> r == Ok(Sort(le, RoundAll(num, b.parameters))))
            && (b.parameters == [] ==> r == Err(Empty))
  {
    hide LineEntry, Unlines, ParamsHeader, ParseText, ParamsLine, Sort, RoundEntry, Distinct;
    HeaderComments(b);
    var s, c := SystemId(b), ComponentId(b);
    forall i | 0 <= i < |b.parameters|
      ensures OneLine(ParamsLine(num, s, c, b.parameters[i]))
      ensures LineEntry(num, StripReturn(ParamsLine(num, s, c, b.parameters[i])))
              == Some(RoundEntry(num, b.parameters[i]))
    {
      ParamsLineReads(num, s, c, b.parameters[i]);
    }
    RoundKeepsDistinct(num, b.parameters);
    FileReads(num, le, ParamsHeader(b), ParamsLines(num, s, c, b.parameters), RoundAll(num, b.parameters));
  }

  lemma RoundKeepsOrder(num: Numerals, le: (string, string) -> bool, entries: seq<Entry>)
    ensures Sorting.Ordered(ById(le), RoundAll(num, entries)) <==> Sorting.Ordered(ById(le), entries)
  {
    var rounded := RoundAll(num, entries);
    forall i, j | 0 <= i < j < |entries|
      ensures ById(le)(rounded[i], rounded[j]) == ById(le)(entries[i], entries[j])
    {
    }
  }

  /** What both text formats give back, through the entry point that tells text from JSON. */
  lemma TextReads(num: Numerals, le: (string, string) -> bool,
                  json: string -> Result<seq<Entry>, ParseError>, b: Backup, text: string)
    requires CleanFields(b) && Printable(num, b.parameters)
    requires text == PrintParm(num, b) || text == PrintParams(num, b)
    ensures var r := ParseBackup(num, le, json, text);
            && (r.Ok? <==> b.parameters != [] && Distinct(b.parameters))
            && (r.Ok? ==> r == Ok(Sort(le, RoundAll(num, b.parameters))))
            && (b.parameters == [] ==> r == Err(Empty))
  {
    ParmRoundTrip(num, le, b);
    ParamsRoundTrip(num, le, b);
    assert PrintParm(num, b)[0] == '#' && PrintParams(num, b)[0] == '#';
    hide ParseText, SplitLines, Sort, RoundAll, Distinct, CleanFields;
  }

  ghost predicate ReadsExactly(num: Numerals, entries: seq<Entry>) {
    forall i :: 0 <= i < |entries| ==> Rounded(num, entries[i].value) == entries[i].value
  }

  lemma RoundedExactly(num: Numerals, entries: seq<Entry>)
    ensures RoundAll(num, entries) == entries <==> ReadsExactly(num, entries)
  {
    var rounded := RoundAll(num, entries);
    assert forall i :: 0 <= i < |entries| ==> rounded[i].id == entries[i].id;
    if ReadsExactly(num, entries) {
      assert rounded == entries;
    }
    if rounded == entries {
      forall i | 0 <= i < |entries|
        ensures Rounded(num, entries[i].value) == entries[i].value
      {
        assert rounded[i] == entries[i];
      }
    }
  }

  /**
   A backup comes back identically from a text format exactly when it has entries, no id repeats,
   they are in order, and every value survives the rounding.
   */
  lemma LosslessExactly(num: Numerals, le: (string, string) -> bool,
                        json: string -> Result<seq<Entry>, ParseError>, b: Backup, text: string)
    requires CleanFields(b) && Printable(num, b.parameters) && Sorting.TotalPreorder(le)
    requires text == PrintParm(num, b) || text == PrintParams(num, b)
    ensures ParseBackup(num, le, json, text) == Ok(b.parameters)
            <==> && b.parameters != [] && Distinct(b.parameters) && Sorting.Ordered(ById(le), b.parameters)
                 && ReadsExactly(num, b.parameters)
  {
    var entries := b.parameters;
    TextReads(num, le, json, b, text);
    RoundedExactly(num, entries);
    RoundKeepsOrder(num, le, entries);
    Sorting.ByPreorder((e: Entry) => e.id, le);
    Sorting.SortOrdered(ById(le), RoundAll(num, entries));
    if Sorting.Ordered(ById(le), entries) {
      Sorting.SortIdempotent(ById(le), RoundAll(num, entries));
    }
    hide ParseBackup, RoundAll, Distinct, CleanFields, ReadsExactly, Sorting.Sort, Sorting.Ordered,
      Sorting.TotalPreorder;
  }
}
