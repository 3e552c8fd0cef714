/**
 MAVFTP paths, directory listings and the request payload.

 `name.replace(...)` patterns are written as the recursive functions they denote. A listing is
 taken after UTF-8 decoding.
 */
module MavftpPaths {
  import opened Collections
  import opened Texts

  // ----- path functions -----

  /** `replace(/\/+/g, '/')`. */
  function Collapse(s: string): string {
    if s == "" then ""
    else if |s| >= 2 && s[0] == '/' && s[1] == '/' then Collapse(s[1..])
    else [s[0]] + Collapse(s[1..])
  }

  /** `replace(/\/+$/, '')`. */
  function StripTail(s: string): (r: string)
    ensures r <= s
  {
    if s != "" && s[|s| - 1] == '/' then StripTail(s[..|s| - 1]) else s
  }

  /** `replace(/^\/+/, '')`. */
  function StripHead(s: string): string {
    if s != "" && s[0] == '/' then StripHead(s[1..]) else s
  }

  predicate IsRootChar(c: char) {
    'A' <= c <= 'Z' || 'a' <= c <= 'z' || '0' <= c <= '9' || c == '_' || c == '-'
  }

  /** A virtual root such as `@SYS`. */
  predicate IsVirtualRoot(s: string) {
    |s| >= 2 && s[0] == '@' && forall i :: 1 <= i < |s| ==> IsRootChar(s[i])
  }

  function Normalize(path: string): string {
    var trimmed := Trim(path);
    if trimmed == "" then "@SYS"
    else if trimmed == "/" then trimmed
    else
      var collapsed := Collapse(trimmed);
      if IsVirtualRoot(collapsed) then collapsed else StripTail(collapsed)
  }

  function Join(parent: string, name: string): string {
    var p := Normalize(parent);
    var n := StripTail(StripHead(name));
    if n == "" then p else if p == "/" then "/" + n else p + "/" + n
  }

  /** The index of the last slash, or -1. */
  function LastSlash(s: string): (i: int)
    ensures -1 <= i < |s|
    ensures i >= 0 ==> s[i] == '/'
    ensures forall j :: i < j < |s| ==> s[j] != '/'
  {
    if s == "" then -1 else if s[|s| - 1] == '/' then |s| - 1 else LastSlash(s[..|s| - 1])
  }

  function Parent(path: string): Option<string> {
    var p := Normalize(path);
    if p == "/" || IsVirtualRoot(p) then None
    else if LastSlash(p) <= 0 then None
    else Some(p[..LastSlash(p)])
  }

  // ----- normal forms -----

  ghost predicate NoDoubleSlash(s: string) {
    forall i :: 0 <= i < |s| - 1 ==> !(s[i] == '/' && s[i + 1] == '/')
  }

  lemma {:induction false} CollapseShape(s: string)
    ensures NoDoubleSlash(Collapse(s))
    ensures |Collapse(s)| <= |s|
    ensures s != "" ==> Collapse(s) != "" && Collapse(s)[0] == s[0]
    ensures s != "" ==> Collapse(s)[|Collapse(s)| - 1] == s[|s| - 1]
  {
    if s != "" {
      CollapseShape(s[1..]);
    }
  }

  lemma {:induction false} CollapseFixed(s: string)
    requires NoDoubleSlash(s)
    ensures Collapse(s) == s
  {
    if s != "" {
      forall i | 0 <= i < |s[1..]| - 1
        ensures !(s[1..][i] == '/' && s[1..][i + 1] == '/')
      {
        assert s[1..][i] == s[i + 1] && s[1..][i + 1] == s[i + 2];
      }
      CollapseFixed(s[1..]);
    }
  }

  lemma {:induction false} StripTailShape(s: string)
    ensures StripTail(s) == "" || StripTail(s)[|StripTail(s)| - 1] != '/'
    ensures forall i :: |StripTail(s)| <= i < |s| ==> s[i] == '/'
  {
    if s != "" && s[|s| - 1] == '/' {
      StripTailShape(s[..|s| - 1]);
    }
  }

  lemma {:induction false} CollapseAppend(u: string, k: string)
    requires u != "" && u[|u| - 1] != '/' && forall i :: 0 <= i < |k| ==> k[i] == '/'
    ensures Collapse(u + k) == Collapse(u) + if k == "" then "" else "/"
  {
    if |u| == 1 {
      CollapseSlashes(k);
      assert (u + k)[1..] == k && u[1..] == "";
    } else {
      assert (u + k)[1..] == u[1..] + k;
      CollapseAppend(u[1..], k);
    }
  }

  lemma {:induction false} CollapseSlashes(k: string)
    requires forall i :: 0 <= i < |k| ==> k[i] == '/'
    ensures Collapse(k) == if k == "" then "" else "/"
  {
    if |k| >= 2 {
      CollapseSlashes(k[1..]);
    } else if k != "" {
      assert k == "/" && k[1..] == "";
    }
  }

  /** Collapsing and dropping trailing slashes commute. */
  lemma StripCollapse(s: string)
    ensures StripTail(Collapse(s)) == Collapse(StripTail(s))
  {
    StripTailShape(s);
    var u := StripTail(s);
    var k := s[|u|..];
    assert s == u + k;
    if u == "" {
      assert s == k;
      CollapseSlashes(k);
      assert StripTail("/") == StripTail("") == "";
    } else {
      CollapseAppend(u, k);
      CollapseShape(u);
      var c := Collapse(u);
      assert StripTail(c) == c;
      if k != "" {
        assert (c + "/")[..|c + "/"| - 1] == c;
      }
    }
  }

  lemma {:induction false} TrimShape(s: string)
    ensures Trim(s) == "" || (!IsSpace(Trim(s)[0]) && !IsSpace(Trim(s)[|Trim(s)| - 1]))
    ensures |Trim(s)| <= |s|
    ensures s != "" && IsSpace(s[|s| - 1]) ==> |Trim(s)| < |s|
  {
    TrimStartShape(s);
    TrimEndShape(TrimStart(s));
  }

  lemma {:induction false} TrimStartShape(s: string)
    ensures TrimStart(s) == "" || !IsSpace(TrimStart(s)[0])
    ensures |TrimStart(s)| <= |s|
    ensures TrimStart(s) != "" ==> TrimStart(s)[|TrimStart(s)| - 1] == s[|s| - 1]
  {
    if s != "" && IsSpace(s[0]) {
      TrimStartShape(s[1..]);
    }
  }

  lemma {:induction false} TrimEndShape(s: string)
    ensures TrimEnd(s) <= s
    ensures TrimEnd(s) == "" || !IsSpace(TrimEnd(s)[|TrimEnd(s)| - 1])
    ensures s != "" && IsSpace(s[|s| - 1]) ==> |TrimEnd(s)| < |s|
  {
    if s != "" && IsSpace(s[|s| - 1]) {
      TrimEndShape(s[..|s| - 1]);
    }
  }

  /** A path that a second normalization leaves alone, read off the trimmed input. */
  predicate Settles(path: string) {
    var t := Trim(path);
    t == "" || t == "/" || (StripTail(t) != "" && !IsSpace(StripTail(t)[|StripTail(t)| - 1]))
  }

  lemma NormalizeGeneral(path: string)
    requires Trim(path) != "" && Trim(path) != "/"
    ensures Normalize(path) == Collapse(StripTail(Trim(path)))
  {
    var c := Collapse(Trim(path));
    StripCollapse(Trim(path));
    if IsVirtualRoot(c) {
      assert IsRootChar(c[|c| - 1]);
      assert StripTail(c) == c;
    }
  }

  /** What every normal form looks like. */
  ghost predicate Normal(p: string) {
    && NoDoubleSlash(p)
    && (p != "" ==> !IsSpace(p[0]))
    && (p == "/" || p == "" || p[|p| - 1] != '/')
  }

  lemma GeneralShape(t: string)
    requires t != "" && !IsSpace(t[0])
    ensures Normal(Collapse(StripTail(t)))
    ensures Collapse(StripTail(t)) == "" <==> StripTail(t) == ""
  {
    hide IsSpace;
    StripTailShape(t);
    CollapseShape(StripTail(t));
  }

  lemma NormalizeShape(path: string)
    ensures Normal(Normalize(path))
    ensures Normalize(path) == "" <==> Trim(path) != "" && Trim(path) != "/" && StripTail(Trim(path)) == ""
  {
    var t := Trim(path);
    assert !IsSpace('@') && !IsSpace('/');
    TrimShape(path);
    if t != "" && t != "/" {
      NormalizeGeneral(path);
      GeneralShape(t);
    }
  }

  lemma NormalizeFixed(p: string)
    requires p != "" && NoDoubleSlash(p) && !IsSpace(p[0]) && !IsSpace(p[|p| - 1]) && p[|p| - 1] != '/'
    ensures Normalize(p) == p
  {
    TrimSolid(p);
    CollapseFixed(p);
  }

  lemma NormalizeShrinks(path: string)
    requires Trim(path) != ""
    ensures |Normalize(path)| <= |Trim(path)|
  {
    if Trim(path) != "/" {
      NormalizeGeneral(path);
      CollapseShape(StripTail(Trim(path)));
    }
  }

  /** The normal form of a path with something besides slashes ends as the input does before its trailing slashes. */
  lemma GeneralEnd(t: string)
    requires StripTail(t) != ""
    ensures var p := Collapse(StripTail(t));
            p != "" && p[|p| - 1] == StripTail(t)[|StripTail(t)| - 1] && p[|p| - 1] != '/'
  {
    StripTailShape(t);
    CollapseShape(StripTail(t));
  }

  lemma SpaceEndShrinks(p: string)
    requires p != "" && !IsSpace(p[0]) && IsSpace(p[|p| - 1])
    ensures |Normalize(p)| < |p|
  {
    hide IsSpace;
    TrimShape(p);
    TrimHead(p);
    NormalizeShrinks(p);
  }

  lemma EdgeForms()
    ensures Normalize("") == "@SYS" && Normalize("@SYS") == "@SYS" && Normalize("/") == "/"
  {
    assert !IsSpace('@') && !IsSpace('S') && !IsSpace('/');
    NormalizeFixed("@SYS");
    TrimSolid("/");
  }

  lemma IdempotentGeneral(path: string)
    requires Trim(path) != "" && Trim(path) != "/"
    ensures Normalize(Normalize(path)) == Normalize(path) <==> Settles(path)
  {
    hide IsSpace, Normalize, Trim, Collapse;
    var t, p := Trim(path), Normalize(path);
    NormalizeShape(path);
    NormalizeGeneral(path);
    EdgeForms();
    if StripTail(t) != "" {
      GeneralEnd(t);
      if IsSpace(p[|p| - 1]) {
        SpaceEndShrinks(p);
      } else {
        NormalizeFixed(p);
      }
    }
  }

  /**
   Normalization is idempotent exactly on the paths that settle: not on a run of two or more
   slashes, which becomes empty, nor when white space precedes the trailing slashes.
   */
  lemma IdempotentExactly(path: string)
    ensures Normalize(Normalize(path)) == Normalize(path) <==> Settles(path)
  {
    EdgeForms();
    if Trim(path) != "" && Trim(path) != "/" {
      IdempotentGeneral(path);
    }
  }

  lemma {:induction false} TrimHead(s: string)
    requires s != "" && !IsSpace(s[0])
    ensures Trim(s) != "" && Trim(s)[0] == s[0]
  {
    TrimEndHead(s);
  }

  lemma {:induction false} TrimEndHead(s: string)
    requires s != "" && !IsSpace(s[0])
    ensures TrimEnd(s) != "" && TrimEnd(s)[0] == s[0]
  {
    if IsSpace(s[|s| - 1]) {
      TrimEndHead(s[..|s| - 1]);
    }
  }

  // ----- components -----

  /** The components of a path: what stands between its slashes. */
  function Components(s: string): seq<string>
    decreases |s|
  {
    if s == "" then []
    else if s[0] == '/' then Components(s[1..])
    else [s[..IndexOf(s, '/')]] + Components(s[IndexOf(s, '/')..])
  }

  lemma ComponentsHead(s: string)
    requires s != "" && s[0] != '/'
    ensures var i := IndexOf(s, '/'); i > 0 && Components(s) == [s[..i]] + Components(s[i..])
  {
  }

  lemma {:induction false} IndexOfAppend(a: string, b: string)
    requires a != "" && (a[|a| - 1] == '/' || b == "" || b[0] == '/')
    ensures IndexOf(a + b, '/') == IndexOf(a, '/')
  {
    if a[0] != '/' {
      assert (a + b)[1..] == a[1..] + b;
      if |a| > 1 {
        IndexOfAppend(a[1..], b);
      } else {
        assert a[1..] + b == b;
      }
    }
  }

  /** The components of two texts that meet at a slash. */
  lemma {:induction false} ComponentsAppend(a: string, b: string)
    requires a == "" || a[|a| - 1] == '/' || b == "" || b[0] == '/'
    ensures Components(a + b) == Components(a) + Components(b)
    decreases |a|
  {
    hide IndexOf;
    if a == "" {
      assert a + b == b;
    } else if a[0] == '/' {
      assert (a + b)[1..] == a[1..] + b;
      ComponentsAppend(a[1..], b);
    } else {
      var i := IndexOf(a, '/');
      ComponentsHead(a);
      ComponentsHead(a + b);
      IndexOfAppend(a, b);
      assert (a + b)[..i] == a[..i] && (a + b)[i..] == a[i..] + b;
      hide Components;
      ComponentsAppend(a[i..], b);
    }
  }

  /** A second slash changes no component. */
  lemma SecondSlash(a: string, s: string)
    requires |s| >= 2 && s[0] == '/' && s[1] == '/'
    ensures Components(a + s) == Components(a + s[1..])
  {
    LeadingSlash(s);
    hide Components;
    ComponentsAppend(a, s[1..]);
    ComponentsAppend(a, s);
  }

  lemma CollapseCases(s: string)
    requires s != ""
    ensures Collapse(s)
            == if |s| >= 2 && s[0] == '/' && s[1] == '/' then Collapse(s[1..]) else [s[0]] + Collapse(s[1..])
  {
  }

  lemma MoveOver(a: string, c: char, rest: string)
    ensures (a + [c]) + rest == a + ([c] + rest)
  {
  }

  /** Collapsing runs of slashes changes no component, whatever stands before. */
  lemma {:induction false} CollapseKeeps(a: string, s: string)
    ensures Components(a + Collapse(s)) == Components(a + s)
    decreases |s|
  {
    if s != "" {
      hide Components;
      CollapseCases(s);
      hide Collapse;
      if |s| >= 2 && s[0] == '/' && s[1] == '/' {
        CollapseKeeps(a, s[1..]);
        SecondSlash(a, s);
      } else {
        CollapseKeeps(a + [s[0]], s[1..]);
        MoveOver(a, s[0], s[1..]);
        MoveOver(a, s[0], Collapse(s[1..]));
        assert s == [s[0]] + s[1..];
      }
    }
  }

  lemma LeadingSlash(s: string)
    requires s != "" && s[0] == '/'
    ensures Components(s) == Components(s[1..])
  {
  }

  lemma {:induction false} StripTailKeeps(s: string)
    ensures Components(StripTail(s)) == Components(s)
  {
    if s != "" && s[|s| - 1] == '/' {
      var front := s[..|s| - 1];
      assert s == front + "/";
      ComponentsAppend(front, "/");
      assert Components("/") == [] by { LeadingSlash("/"); }
      StripTailKeeps(front);
    }
  }

  lemma {:induction false} StripHeadKeeps(s: string)
    ensures Components(StripHead(s)) == Components(s)
  {
    if s != "" && s[0] == '/' {
      StripHeadKeeps(s[1..]);
    }
  }

  /** Normalizing keeps every component and whether the path is absolute; a blank path is the virtual root `@SYS`. */
  lemma NormalizeKeeps(path: string)
    ensures Trim(path) == "" ==> Normalize(path) == "@SYS"
    ensures Trim(path) != "" ==> Components(Normalize(path)) == Components(Trim(path))
    ensures Trim(path) != "" && Normalize(path) != "" ==> Normalize(path)[0] == Trim(path)[0]
  {
    var t := Trim(path);
    if t != "" && t != "/" {
      NormalizeGeneral(path);
      hide Normalize, Trim, Components, Collapse, StripTail;
      CollapseKeeps("", StripTail(t));
      assert "" + Collapse(StripTail(t)) == Collapse(StripTail(t)) && "" + StripTail(t) == StripTail(t);
      StripTailKeeps(t);
      CollapseShape(StripTail(t));
    }
  }

  /** Joining appends the components of the name to those of the directory. */
  lemma JoinKeeps(dir: string, name: string)
    ensures Components(Join(dir, name)) == Components(Normalize(dir)) + Components(name)
  {
    var p, n := Normalize(dir), StripTail(StripHead(name));
    StripHeadKeeps(name);
    StripTailKeeps(StripHead(name));
    hide Normalize, StripTail, StripHead, Components;
    if n == "" {
      assert Components(n) == [] by { NoComponents(); }
      assert Components(p) + [] == Components(p);
    } else if p == "/" {
      ComponentsAppend("/", n);
    } else {
      assert p + "/" + n == p + ("/" + n);
      ComponentsAppend(p, "/" + n);
      ComponentsAppend("/", n);
      assert Components("/") == [] by { NoComponents(); }
    }
  }

  lemma NoComponents()
    ensures Components("") == [] && Components("/") == []
  {
    assert "/"[1..] == "";
  }

  /** The parent is everything before the last slash of the normal form, unless that slash comes first. */
  lemma ParentExactly(path: string, d: string)
    ensures Parent(path) == Some(d)
            <==> d != "" && exists name :: '/' !in name && Normalize(path) == d + "/" + name
  {
    hide Normalize;
    var p := Normalize(path);
    var i := LastSlash(p);
    if Parent(path) == Some(d) {
      var name := p[i + 1..];
      assert p == d + "/" + name;
      assert '/' !in name;
    }
    if name :| '/' !in name && p == d + "/" + name {
      if d != "" {
        LastSlashOf(d, name);
        JoinedIsNoRoot(d, name);
        assert (d + "/" + name)[..|d|] == d;
      }
    }
  }

  // ----- directory listings -----

  datatype Kind = File | Directory

  datatype DirEntry = DirEntry(name: string, path: string, kind: Kind, size: Option<real>)

  predicate IsSafeName(name: string) {
    name != "." && name != ".." && '/' !in name && '\\' !in name
  }

  /** `parseMavftpDirectoryEntry`; `read` is JavaScript's number syntax, None when not finite. */
  function ParseEntry(read: string -> Option<real>, dir: string, raw: string): Option<DirEntry> {
    var entry := Trim(raw);
    if entry == "" then None
    else
      var rest := entry[1..];
      if entry[0] == 'D' then
        var name := Trim(rest);
        if name == "" || !IsSafeName(name) then None else Some(DirEntry(name, Join(dir, name), Directory, None))
      else if entry[0] == 'F' then
        var tab := IndexOf(rest, '\t');
        var name := Trim(rest[..tab]);
        if name == "" || !IsSafeName(name) then None
        else
          var size := if tab == |rest| then None else read(Trim(UpToTab(rest[tab + 1..])));
          Some(DirEntry(name, Join(dir, name), File, size))
      else None
  }

  function UpToTab(s: string): string {
    s[..IndexOf(s, '\t')]
  }

  function SplitNul(s: string): seq<string> {
    var i := IndexOf(s, '\0');
    if i == |s| then [s] else [s[..i]] + SplitNul(s[i + 1..])
  }

  function DropTrailingNuls(s: string): string {
    if s != "" && s[|s| - 1] == '\0' then DropTrailingNuls(s[..|s| - 1]) else s
  }

  function ParseEach(read: string -> Option<real>, dir: string, raws: seq<string>): seq<DirEntry> {
    if raws == [] then []
    else
      var first := ParseEntry(read, dir, raws[0]);
      (if first.Some? then [first.value] else []) + ParseEach(read, dir, raws[1..])
  }

  /** `parseMavftpDirectoryEntries`, from the decoded listing. */
  function ParseListing(read: string -> Option<real>, directory: string, decoded: string): seq<DirEntry> {
    var text := DropTrailingNuls(decoded);
    if text == "" then [] else ParseEach(read, Normalize(directory), SplitNul(text))
  }

  lemma {:induction false} LastSlashOf(a: string, name: string)
    requires '/' !in name
    ensures LastSlash(a + "/" + name) == |a|
  {
    var s := a + "/" + name;
    assert s[|a|] == '/';
    assert forall j :: |a| < j < |s| ==> s[j] == name[j - |a| - 1];
  }

  lemma {:induction false} StripHeadSolid(name: string)
    requires '/' !in name
    ensures StripTail(StripHead(name)) == name
  {
  }

  lemma JoinedIsNormal(d: string, name: string)
    requires NoDoubleSlash(d) && (d != "" ==> !IsSpace(d[0]) && d[|d| - 1] != '/')
    requires name != "" && '/' !in name && !IsSpace(name[|name| - 1])
    ensures Normalize(d + "/" + name) == d + "/" + name
  {
    var path := d + "/" + name;
    assert !IsSpace('/');
    hide IsSpace;
    SlashFreeTail(d, name);
    assert path[|path| - 1] == name[|name| - 1];
    assert name[|name| - 1] in name;
    assert path[0] == if d == "" then '/' else d[0];
    NormalizeFixed(path);
  }

  lemma JoinedIsNoRoot(d: string, name: string)
    ensures !IsVirtualRoot(d + "/" + name)
  {
    assert (d + "/" + name)[|d|] == '/';
  }

  /**
   The parent of a joined path is the normalized directory, and there is none below `/`. Slashes
   around the name are stripped first.
   */
  lemma JoinParent(dir: string, name: string)
    requires var n := StripTail(StripHead(name)); n != "" && '/' !in n && !IsSpace(n[|n| - 1])
    requires Normalize(dir) != ""
    ensures Parent(Join(dir, name)) == if Normalize(dir) == "/" then None else Some(Normalize(dir))
  {
    hide IsSpace, Normalize, IsVirtualRoot, StripHead, StripTail;
    var n := StripTail(StripHead(name));
    var d := if Normalize(dir) == "/" then "" else Normalize(dir);
    NormalizeShape(dir);
    assert "" + "/" + n == "/" + n;
    assert Join(dir, name) == d + "/" + n;
    JoinedIsNormal(d, n);
    JoinedIsNoRoot(d, n);
    LastSlashOf(d, n);
    assert (d + "/" + n)[..|d|] == d;
  }

  lemma SlashFreeTail(d: string, name: string)
    requires NoDoubleSlash(d) && (d != "" ==> d[|d| - 1] != '/') && name != "" && '/' !in name
    ensures NoDoubleSlash(d + "/" + name)
  {
    var s := d + "/" + name;
    forall i | 0 <= i < |s| - 1
      ensures !(s[i] == '/' && s[i + 1] == '/')
    {
      if i >= |d| {
        assert s[i + 1] == name[i - |d|];
        assert name[i - |d|] in name;
      } else if i + 1 < |d| {
        assert s[i] == d[i] && s[i + 1] == d[i + 1];
      }
    }
  }

  lemma EntryName(read: string -> Option<real>, dir: string, raw: string)
    requires ParseEntry(read, dir, raw).Some?
    ensures var e := ParseEntry(read, dir, raw).value;
            && e.name != "" && IsSafeName(e.name) && !IsSpace(e.name[|e.name| - 1]) && e.path == Join(dir, e.name)
  {
    hide IsSpace, Join;
    var rest := Trim(raw)[1..];
    TrimShape(rest);
    TrimShape(rest[..IndexOf(rest, '\t')]);
  }

  lemma {:induction false} EachEntry(read: string -> Option<real>, dir: string, raws: seq<string>, i: nat)
    requires i < |ParseEach(read, dir, raws)|
    ensures var e := ParseEach(read, dir, raws)[i];
            && e.name != "" && IsSafeName(e.name) && !IsSpace(e.name[|e.name| - 1]) && e.path == Join(dir, e.name)
  {
    hide ParseEntry, IsSpace, IsSafeName;
    if ParseEntry(read, dir, raws[0]).Some? {
      EntryName(read, dir, raws[0]);
      if i > 0 {
        EachEntry(read, dir, raws[1..], i - 1);
      }
    } else {
      EachEntry(read, dir, raws[1..], i);
    }
  }

  lemma TwoSlashes(t: string)
    requires |t| >= 2 && StripTail(t) == ""
    ensures !NoDoubleSlash(t)
  {
    StripTailShape(t);
    assert t[0] == '/' && t[0 + 1] == '/';
  }

  /** A normal form normalizes to something again. */
  lemma TwiceNonEmpty(path: string)
    ensures Normalize(Normalize(path)) != ""
  {
    hide IsSpace, Trim, Collapse;
    var p := Normalize(path);
    NormalizeShape(path);
    EdgeForms();
    if p != "" {
      NormalizeShape(p);
      TrimPrefix(p);
      if StripTail(Trim(p)) == "" {
        if |Trim(p)| >= 2 {
          TwoSlashes(Trim(p));
        }
      }
    }
  }

  lemma {:induction false} TrimPrefix(s: string)
    requires s != "" && !IsSpace(s[0])
    ensures Trim(s) <= s
  {
    TrimEndShape(s);
  }

  /**
   Every entry of a listing has a safe name and a path whose parent is exactly the normalized
   directory, precisely when the directory settles and is not `/`.
   */
  lemma ListingParents(read: string -> Option<real>, directory: string, decoded: string, i: nat)
    requires i < |ParseListing(read, directory, decoded)|
    ensures var e := ParseListing(read, directory, decoded)[i]; var d := Normalize(directory);
            && e.name != "" && e.name != "." && e.name != ".." && '/' !in e.name && '\\' !in e.name
            && (Parent(e.path) == Some(d) <==> Settles(directory) && d != "/")
  {
    hide ParseEntry, Join, IsSpace, Parent, Settles, Normalize;
    var d := Normalize(directory);
    var raws := SplitNul(DropTrailingNuls(decoded));
    EachEntry(read, d, raws, i);
    var e := ParseEach(read, d, raws)[i];
    TwiceNonEmpty(directory);
    StripHeadSolid(e.name);
    JoinParent(d, e.name);
    IdempotentExactly(directory);
  }

  // ----- the parent of any joined path -----

  /** What a path keeps of a joined name: slashes around it go, then white space and slashes at its end. */
  function Kept(name: string): string {
    StripTail(TrimEnd(StripTail(StripHead(name))))
  }

  lemma {:induction false} TrimEndAppend(a: string, n: string)
    requires a != "" && !IsSpace(a[|a| - 1])
    ensures TrimEnd(a + n) == a + TrimEnd(n)
  {
    hide IsSpace;
    if n == "" {
      assert a + n == a;
    } else {
      assert (a + n)[..|a + n| - 1] == a + n[..|n| - 1];
      TrimEndAppend(a, n[..|n| - 1]);
    }
  }

  lemma {:induction false} StripTailAppend(a: string, t: string)
    requires StripTail(t) != ""
    ensures StripTail(a + t) == a + StripTail(t)
  {
    if t[|t| - 1] == '/' {
      assert (a + t)[..|a + t| - 1] == a + t[..|t| - 1];
      StripTailAppend(a, t[..|t| - 1]);
    }
  }

  lemma DropHead(u: string)
    requires NoDoubleSlash(u) && u != ""
    ensures NoDoubleSlash(u[1..]) && !(|u| > 1 && u[0] == '/' && u[1] == '/')
  {
    forall i | 0 <= i < |u[1..]| - 1
      ensures !(u[1..][i] == '/' && u[1..][i + 1] == '/')
    {
      assert u[1..][i] == u[i + 1] && u[1..][i + 1] == u[(i + 1) + 1];
    }
    assert |u| > 1 ==> !(u[0] == '/' && u[0 + 1] == '/');
  }

  lemma CollapseStep(c: char, rest: string)
    requires rest != "" && !(c == '/' && rest[0] == '/')
    ensures Collapse([c] + rest) == [c] + Collapse(rest)
  {
    assert ([c] + rest)[1..] == rest;
  }

  lemma Prepend(c: char, rest: string, more: string)
    ensures ([c] + rest) + more == [c] + (rest + more)
  {
  }

  lemma FirstOf(rest: string, m: string)
    requires m != ""
    ensures rest + m != "" && (rest + m)[0] == if rest == "" then m[0] else rest[0]
  {
  }

  lemma {:induction false} CollapseAfter(u: string, m: string)
    requires NoDoubleSlash(u) && m != "" && m[0] != '/'
    ensures Collapse(u + m) == u + Collapse(m)
  {
    if u == "" {
      assert u + m == m && u + Collapse(m) == Collapse(m);
    } else {
      var c, rest := u[0], u[1..];
      DropHead(u);
      assert u == [c] + rest && (rest != "" ==> rest[0] == u[1]);
      hide NoDoubleSlash, Collapse;
      FirstOf(rest, m);
      CollapseAfter(rest, m);
      CollapseStep(c, rest + m);
      Prepend(c, rest, m);
      Prepend(c, rest, Collapse(m));
    }
  }

  lemma {:induction false} CollapseSlashFree(m: string)
    ensures '/' in Collapse(m) <==> '/' in m
  {
    if m != "" {
      CollapseSlashFree(m[1..]);
      assert m == [m[0]] + m[1..];
    }
  }

  lemma NoTrailingDouble(d: string)
    requires NoDoubleSlash(d) && (d != "" ==> d[|d| - 1] != '/')
    ensures NoDoubleSlash(d + "/")
  {
    var s := d + "/";
    forall i | 0 <= i < |s| - 1
      ensures !(s[i] == '/' && s[i + 1] == '/')
    {
      assert s[i] == d[i];
      assert i + 1 < |d| ==> s[i + 1] == d[i + 1];
    }
  }

  lemma {:induction false} HeadIsNoSlash(name: string)
    ensures StripHead(name) == "" || StripHead(name)[0] != '/'
  {
    if name != "" && name[0] == '/' {
      HeadIsNoSlash(name[1..]);
    }
  }

  /** A non-empty text that starts with no slash keeps its start when trailing slashes go. */
  lemma {:induction false} StripTailKeepsHead(t: string)
    requires t != "" && t[0] != '/'
    ensures StripTail(t) != "" && StripTail(t)[0] == t[0]
  {
    if t[|t| - 1] == '/' {
      StripTailKeepsHead(t[..|t| - 1]);
    }
  }

  lemma {:induction false} TrimEndPrefix(s: string)
    ensures TrimEnd(s) <= s
  {
    if s != "" && IsSpace(s[|s| - 1]) {
      TrimEndPrefix(s[..|s| - 1]);
    }
  }

  /** The trimmed joined path. */
  lemma JoinedTrim(d: string, n: string)
    requires d != "" ==> !IsSpace(d[0])
    ensures Trim(d + "/" + n) == d + "/" + TrimEnd(n)
  {
    assert !IsSpace('/');
    hide IsSpace;
    var path := d + "/" + n;
    assert path[0] == if d == "" then '/' else d[0];
    assert TrimStart(path) == path;
    assert (d + "/")[|d + "/"| - 1] == '/';
    TrimEndAppend(d + "/", n);
  }

  /** The normal form of a directory joined with anything. */
  lemma JoinedForm(d: string, n: string)
    requires NoDoubleSlash(d) && (d != "" ==> !IsSpace(d[0]) && d[|d| - 1] != '/')
    requires n != "" && n[0] != '/'
    ensures var m := StripTail(TrimEnd(n));
            Normalize(d + "/" + n) == if m != "" then d + "/" + Collapse(m) else if d == "" then "/" else d
  {
    var t := TrimEnd(n);
    TrimEndPrefix(n);
    JoinedTrim(d, n);
    hide IsSpace, Normalize, Trim;
    if t != "" {
      StripTailKeepsHead(t);
      NormalizeGeneral(d + "/" + n);
      StripTailAppend(d + "/", t);
      NoTrailingDouble(d);
      CollapseAfter(d + "/", StripTail(t));
    } else if d == "" {
      assert d + "/" + t == "/";
      RootForm(d + "/" + n);
    } else {
      assert d + "/" + t == d + "/";
      NormalizeGeneral(d + "/" + n);
      assert (d + "/")[..|d + "/"| - 1] == d;
      CollapseFixed(d);
    }
  }

  lemma RootForm(path: string)
    requires Trim(path) == "/"
    ensures Normalize(path) == "/"
  {
  }

  lemma JoinedAt(d: string, c: string, j: nat)
    requires j < |c|
    ensures (d + "/" + c)[|d| + 1 + j] == c[j]
  {
  }

  lemma SlashInside(d: string, c: string)
    ensures LastSlash(d + "/" + c) == |d| <==> '/' !in c
  {
    hide LastSlash;
    if '/' !in c {
      LastSlashOf(d, c);
    } else {
      var j :| 0 <= j < |c| && c[j] == '/';
      JoinedAt(d, c, j);
    }
  }

  /** The parent of a path is shorter than its normal form. */
  lemma ParentShorter(path: string)
    ensures Parent(path).Some? ==> |Parent(path).value| < |Normalize(path)|
  {
    hide Normalize, IsVirtualRoot;
  }

  /** Normalizing a normal form again does not make it longer, unless it was empty. */
  lemma TwiceShorter(dir: string)
    ensures Normalize(dir) == "" ==> Parent(Normalize(dir)) == None
    ensures Normalize(dir) != "" ==> |Normalize(Normalize(dir))| <= |Normalize(dir)|
  {
    EdgeForms();
    NormalizeShape(dir);
    hide IsSpace, Collapse;
    if Normalize(dir) == "" {
      assert IsVirtualRoot("@SYS");
    } else {
      TrimHead(Normalize(dir));
      TrimPrefix(Normalize(dir));
      NormalizeShrinks(Normalize(dir));
    }
  }

  lemma ParentOf(path: string, d: string, c: string)
    requires Normalize(path) == d + "/" + c && c != ""
    ensures Parent(path) == Some(d) <==> d != "" && '/' !in c
    ensures d == "" && '/' !in c ==> Parent(path) == None
    ensures Parent(path) != Some("")
  {
    hide Normalize, IsVirtualRoot;
    JoinedIsNoRoot(d, c);
    SlashInside(d, c);
    assert (d + "/" + c)[..|d|] == d;
  }

  lemma ParentNoRoot(path: string)
    ensures Parent(path) != Some("/")
  {
    NormalizeShape(path);
    hide Normalize, IsVirtualRoot, IsSpace;
  }

  lemma JoinedParent(d: string, n: string)
    requires NoDoubleSlash(d) && (d != "" ==> !IsSpace(d[0]) && d[|d| - 1] != '/')
    requires n != "" && n[0] != '/'
    ensures var m := StripTail(TrimEnd(n));
            Parent(d + "/" + n) == Some(d) <==> d != "" && m != "" && '/' !in m
  {
    hide IsSpace, Normalize, Trim, Parent, Collapse, StripTail, TrimEnd;
    var m := StripTail(TrimEnd(n));
    JoinedForm(d, n);
    ParentShorter(d + "/" + n);
    if m != "" {
      CollapseShape(m);
      CollapseSlashFree(m);
      ParentOf(d + "/" + n, d, Collapse(m));
    } else if d == "" {
      NoParentOfRoot(d + "/" + n);
    }
  }

  lemma NoParentOfRoot(path: string)
    requires Normalize(path) == "/"
    ensures Parent(path) == None
  {
  }

  /**
   The parent of a joined path is the normalized directory exactly when there is a directory below
   the root and what is kept of the name is one path component.
   */
  lemma JoinParentExactly(dir: string, name: string)
    ensures Parent(Join(dir, name)) == Some(Normalize(dir))
            <==> Normalize(dir) != "" && Normalize(dir) != "/" && Kept(name) != "" && '/' !in Kept(name)
  {
    var p, n := Normalize(dir), StripTail(StripHead(name));
    NormalizeShape(dir);
    TwiceShorter(dir);
    HeadIsNoSlash(name);
    ParentNoRoot(Join(dir, name));
    hide Normalize, IsSpace, StripHead, Trim, Parent, TrimEnd, StripTail;
    if n == "" {
      ParentShorter(p);
      assert Kept(name) == "" by { NothingKept(name); }
    } else {
      var d := if p == "/" then "" else p;
      assert n[0] == StripHead(name)[0];
      assert Join(dir, name) == d + "/" + n by { assert "" + "/" + n == "/" + n; }
      JoinedParent(d, n);
    }
  }

  lemma NothingKept(name: string)
    requires StripTail(StripHead(name)) == ""
    ensures Kept(name) == ""
  {
  }

  // ----- listings as a controller writes them -----

  /** One record of a listing: a directory, a file with or without a size, or a skipped entry. */
  datatype Item = Folder(name: string) | Sized(name: string, size: string) | Unsized(name: string) | Skipped

  function Record(item: Item): string {
    match item
    case Folder(name) => "D" + name
    case Sized(name, size) => "F" + name + ['\t'] + size
    case Unsized(name) => "F" + name
    case Skipped => "S"
  }

  /** No padding, and no character that separates columns or records. */
  predicate IsSolid(s: string) {
    s != "" && !IsSpace(s[0]) && !IsSpace(s[|s| - 1]) && '\t' !in s && '\0' !in s
  }

  predicate IsRecordable(item: Item) {
    && (!item.Skipped? ==> IsSolid(item.name) && item.name != "." && item.name != ".."
                           && '/' !in item.name && '\\' !in item.name)
    && (item.Sized? ==> IsSolid(item.size))
  }

  /** Records with a NUL between them. */
  function Records(items: seq<Item>): string
    requires items != []
  {
    if |items| == 1 then Record(items[0]) else Record(items[0]) + ['\0'] + Records(items[1..])
  }

  function Nuls(n: nat): string {
    if n == 0 then "" else Nuls(n - 1) + ['\0']
  }

  function EntryOf(read: string -> Option<real>, dir: string, item: Item): Option<DirEntry> {
    match item
    case Folder(name) => Some(DirEntry(name, Join(dir, name), Directory, None))
    case Sized(name, size) => Some(DirEntry(name, Join(dir, name), File, read(size)))
    case Unsized(name) => Some(DirEntry(name, Join(dir, name), File, None))
    case Skipped => None
  }

  function EntriesOf(read: string -> Option<real>, dir: string, items: seq<Item>): seq<DirEntry> {
    if items == [] then []
    else
      var first := EntryOf(read, dir, items[0]);
      (if first.Some? then [first.value] else []) + EntriesOf(read, dir, items[1..])
  }

  lemma {:induction false} IndexOfNone(s: string, c: char)
    requires c !in s
    ensures IndexOf(s, c) == |s|
  {
  }

  /** A record has no NUL and no padding, so trimming and splitting leave it alone. */
  lemma RecordSolid(item: Item)
    requires IsRecordable(item)
    ensures Record(item) != "" && '\0' !in Record(item) && Trim(Record(item)) == Record(item)
  {
    assert !IsSpace('D') && !IsSpace('F') && !IsSpace('S');
    hide IsSpace, Trim;
    TrimSolid(Record(item));
  }

  lemma NameReads(read: string -> Option<real>, dir: string, name: string)
    requires IsSolid(name) && IsSafeName(name)
    ensures ParseEntry(read, dir, Record(Folder(name))) == EntryOf(read, dir, Folder(name))
    ensures ParseEntry(read, dir, Record(Unsized(name))) == EntryOf(read, dir, Unsized(name))
  {
    hide IsSpace, Trim, Join;
    RecordSolid(Folder(name));
    RecordSolid(Unsized(name));
    TrimSolid(name);
    IndexOfNone(name, '\t');
    assert Record(Folder(name))[1..] == name && Record(Unsized(name))[1..] == name;
    assert name[..|name|] == name;
  }

  lemma SizedReads(read: string -> Option<real>, dir: string, name: string, size: string)
    requires IsRecordable(Sized(name, size))
    ensures ParseEntry(read, dir, Record(Sized(name, size))) == EntryOf(read, dir, Sized(name, size))
  {
    hide IsSpace, Trim, Join;
    RecordSolid(Sized(name, size));
    SizedColumns(name, size);
    TrimSolid(name);
    TrimSolid(size);
    hide IsSolid, IndexOf;
    assert Record(Sized(name, size))[1..] == name + ['\t'] + size;
  }

  lemma SizedColumns(name: string, size: string)
    requires '\t' !in name && '\t' !in size
    ensures var rest := name + ['\t'] + size;
            && IndexOf(rest, '\t') == |name| < |rest|
            && rest[..|name|] == name && UpToTab(rest[|name| + 1..]) == size
  {
    IndexOfSplit(name, '\t', size);
    var rest := name + ['\t'] + size;
    assert rest[..|name|] == name && rest[|name| + 1..] == size;
    IndexOfNone(size, '\t');
    assert size[..|size|] == size;
  }

  lemma RecordReads(read: string -> Option<real>, dir: string, item: Item)
    requires IsRecordable(item)
    ensures ParseEntry(read, dir, Record(item)) == EntryOf(read, dir, item)
  {
    hide IsSpace, Join, IsSolid, ParseEntry, Record, EntryOf;
    match item
    case Folder(name) => NameReads(read, dir, name);
    case Unsized(name) => NameReads(read, dir, name);
    case Sized(name, size) => SizedReads(read, dir, name, size);
    case Skipped => SkippedReads(read, dir);
  }

  lemma SkippedReads(read: string -> Option<real>, dir: string)
    ensures ParseEntry(read, dir, Record(Skipped)) == EntryOf(read, dir, Skipped)
  {
    assert !IsSpace('S');
    TrimSolid("S");
  }

  lemma {:induction false} RecordsSolid(items: seq<Item>)
    requires items != [] && forall i :: 0 <= i < |items| ==> IsRecordable(items[i])
    ensures var s := Records(items); s != "" && s[|s| - 1] != '\0'
  {
    hide Trim, IsRecordable, Record;
    RecordSolid(items[0]);
    assert Record(items[0])[|Record(items[0])| - 1] in Record(items[0]);
    if |items| > 1 {
      RecordsSolid(items[1..]);
    }
  }

  lemma {:induction false} DropNuls(s: string, n: nat)
    requires s != "" && s[|s| - 1] != '\0'
    ensures DropTrailingNuls(s + Nuls(n)) == s
  {
    if n == 0 {
      assert s + Nuls(0) == s;
    } else {
      DropNuls(s, n - 1);
      assert (s + Nuls(n))[..|s + Nuls(n)| - 1] == s + Nuls(n - 1);
    }
  }

  lemma {:induction false} RecordsRead(read: string -> Option<real>, dir: string, items: seq<Item>)
    requires items != [] && forall i :: 0 <= i < |items| ==> IsRecordable(items[i])
    ensures ParseEach(read, dir, SplitNul(Records(items))) == EntriesOf(read, dir, items)
  {
    hide Trim, IsRecordable, Record, ParseEntry, EntryOf;
    RecordSolid(items[0]);
    RecordReads(read, dir, items[0]);
    var first := Record(items[0]);
    if |items| == 1 {
      IndexOfNone(first, '\0');
      assert SplitNul(Records(items)) == [first];
      assert items[1..] == [];
    } else {
      RecordsRead(read, dir, items[1..]);
      var rest := Records(items[1..]);
      IndexOfSplit(first, '\0', rest);
      var all := first + ['\0'] + rest;
      assert all[..|first|] == first && all[|first| + 1..] == rest;
      assert SplitNul(all) == [first] + SplitNul(rest);
      assert SplitNul(all)[1..] == SplitNul(rest);
    }
  }

  /** A listing of well-formed records, with any number of trailing NULs, parses to exactly its entries in order. */
  lemma ListingReads(read: string -> Option<real>, directory: string, items: seq<Item>, padding: nat)
    requires items != [] && forall i :: 0 <= i < |items| ==> IsRecordable(items[i])
    ensures ParseListing(read, directory, Records(items) + Nuls(padding))
            == EntriesOf(read, Normalize(directory), items)
  {
    hide Normalize, IsRecordable, ParseEach, EntriesOf, SplitNul, DropTrailingNuls;
    RecordsSolid(items);
    DropNuls(Records(items), padding);
    RecordsRead(read, Normalize(directory), items);
  }
}

module MavftpPayload {
  import opened Collections
  import opened Octets

  const DATA_OFFSET: nat := 12
  const MAX_DATA: nat := 239
  const BUFFER: nat := 251

  datatype Payload = Payload(
    seqNumber: nat, session: nat, opcode: nat, size: nat, reqOpcode: nat, burstComplete: nat, offset: nat, data: Bytes)

  function Zeros(n: nat): (z: Bytes)
    ensures |z| == n
  {
    seq(n, _ => 0)
  }

  /** The data bytes that are written: `data.slice(0, min(size, 239))`. */
  function Written(p: Payload): (d: Bytes)
    ensures |d| <= MAX_DATA
  {
    p.data[..Min(|p.data|, Min(p.size, MAX_DATA))]
  }

  function Header(p: Payload): (h: Bytes)
    ensures |h| == DATA_OFFSET
  {
    [p.seqNumber % 256, p.seqNumber / 256 % 256, p.session % 256, p.opcode % 256, p.size % 256,
     p.reqOpcode % 256, p.burstComplete % 256, 0,
     p.offset % 256, p.offset / 256 % 256, p.offset / 65536 % 256, p.offset / 16777216 % 256]
  }

  function Encode(p: Payload): (b: Bytes)
    ensures |b| == BUFFER
  {
    Header(p) + Written(p) + Zeros(MAX_DATA - |Written(p)|)
  }

  /** None stands for the range error a shorter buffer raises. */
  function Decode(b: Bytes): Option<Payload> {
    if |b| < DATA_OFFSET then None
    else Some(Payload(
      Little(b[0], b[1]), b[2], b[3], b[4], b[5], b[6],
      Little(b[8], b[9]) + 65536 * Little(b[10], b[11]),
      b[DATA_OFFSET..Min(|b|, DATA_OFFSET + b[4])]))
  }

  function Little(low: nat, high: nat): nat {
    low + 256 * high
  }

  method WriteHeader(bytes: array<byte>, p: Payload)
    requires bytes.Length == BUFFER
    modifies bytes
    ensures bytes[..DATA_OFFSET] == Header(p)
    ensures bytes[DATA_OFFSET..] == old(bytes[DATA_OFFSET..])
  {
    var h := Header(p);
    forall i | 0 <= i < DATA_OFFSET {
      bytes[i] := h[i];
    }
  }

  /** `encodeMavftpPayload`, writing into a zeroed buffer. */
  method EncodePayload(p: Payload) returns (bytes: array<byte>)
    ensures fresh(bytes) && bytes[..] == Encode(p)
  {
    hide Header;
    bytes := new byte[BUFFER](_ => 0);
    WriteHeader(bytes, p);
    ghost var tail := bytes[DATA_OFFSET..];
    var data := Written(p);
    forall i | 0 <= i < |data| {
      bytes[DATA_OFFSET + i] := data[i];
    }
    assert bytes[..DATA_OFFSET] == Header(p);
    assert bytes[DATA_OFFSET..] == data + Zeros(MAX_DATA - |data|);
    assert bytes[..] == bytes[..DATA_OFFSET] + bytes[DATA_OFFSET..];
  }

  /**
   Where each field stands in the encoded payload: little-endian words at 0 and 8, single bytes from
   2 to 6, a zero at 7, the data from 12 on, and zeros up to 251 bytes.
   */
  lemma EncodeLayout(p: Payload)
    ensures var b := Encode(p); var n := Min(|p.data|, Min(p.size, 239));
            && |b| == 251
            && b[0] as nat + 256 * b[1] as nat == p.seqNumber % 65536
            && b[2] == p.session % 256 && b[3] == p.opcode % 256 && b[4] == p.size % 256
            && b[5] == p.reqOpcode % 256 && b[6] == p.burstComplete % 256 && b[7] == 0
            && b[8] as nat + 256 * b[9] as nat + 65536 * (b[10] as nat + 256 * b[11] as nat) == p.offset % 4294967296
            && b[12..12 + n] == p.data[..n]
            && forall i :: 12 + n <= i < 251 ==> b[i] == 0
  {
    var b := Encode(p);
    SplitWord(p.seqNumber);
    SplitDouble(p.offset);
    assert b[..DATA_OFFSET] == Header(p);
    assert forall i :: 0 <= i < DATA_OFFSET ==> b[i] == Header(p)[i];
    assert b[DATA_OFFSET..] == Written(p) + Zeros(MAX_DATA - |Written(p)|);
    var n := |Written(p)|;
    assert b[DATA_OFFSET..DATA_OFFSET + n] == b[DATA_OFFSET..][..n];
    forall i | 12 + n <= i < 251
      ensures b[i] == 0
    {
      assert b[i] == b[DATA_OFFSET..][i - 12];
    }
  }

  lemma SplitWord(n: nat)
    ensures Little(n % 256, n / 256 % 256) == n % 65536
  {
  }

  lemma SplitDouble(n: nat)
    ensures Little(n % 256, n / 256 % 256) + 65536 * Little(n / 65536 % 256, n / 16777216 % 256) == n % 4294967296
  {
    hide Little;
    SplitWord(n);
    SplitWord(n / 65536);
    QuotientOfQuotient(n);
    SplitHalves(n);
  }

  lemma QuotientOfQuotient(n: nat)
    ensures n / 65536 / 256 == n / 16777216
  {
    var q, r := n / 16777216, n % 16777216;
    assert n == q * 16777216 + r;
    assert n / 65536 == q * 256 + r / 65536;
  }

  lemma SplitHalves(n: nat)
    ensures n % 65536 + 65536 * (n / 65536 % 65536) == n % 4294967296
  {
    var q, r := n / 4294967296, n % 4294967296;
    assert n == q * 4294967296 + r;
    assert n / 65536 == q * 65536 + r / 65536;
  }

  /** Decoding an encoded payload gives each field reduced to its width and the data padded or cut to the size byte. */
  lemma DecodeEncode(p: Payload)
    ensures Decode(Encode(p)) == Some(Payload(
              p.seqNumber % 65536, p.session % 256, p.opcode % 256, p.size % 256, p.reqOpcode % 256,
              p.burstComplete % 256, p.offset % 4294967296,
              (Written(p) + Zeros(MAX_DATA - |Written(p)|))[..Min(p.size % 256, MAX_DATA)]))
  {
    hide Little;
    var b := Encode(p);
    SplitWord(p.seqNumber);
    SplitDouble(p.offset);
    assert b[..DATA_OFFSET] == Header(p);
    assert forall i :: 0 <= i < DATA_OFFSET ==> b[i] == Header(p)[i];
    assert b[DATA_OFFSET..] == Written(p) + Zeros(MAX_DATA - |Written(p)|);
    var n := Min(p.size % 256, MAX_DATA);
    assert b[DATA_OFFSET..DATA_OFFSET + n] == b[DATA_OFFSET..][..n];
  }

  /** A payload survives exactly when every field fits its width and the data is as long as the size allows. */
  lemma RoundTripExact(p: Payload)
    ensures Decode(Encode(p)) == Some(p)
            <==> && p.seqNumber < 65536 && p.session < 256 && p.opcode < 256 && p.size < 256 && p.reqOpcode < 256
                 && p.burstComplete < 256 && p.offset < 4294967296 && |p.data| == Min(p.size, MAX_DATA)
  {
    hide Encode, Decode;
    DecodeEncode(p);
    if p.size < 256 && |p.data| == Min(p.size, MAX_DATA) {
      assert Written(p) == p.data;
      assert (p.data + Zeros(MAX_DATA - |p.data|))[..|p.data|] == p.data;
    }
  }
}
