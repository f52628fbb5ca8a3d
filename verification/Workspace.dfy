/** The workspace policy, and the RAM file system it guards. */
module Workspace {
  import opened Text

  // ---------------------------------------------------------------- the policy

  datatype Capability =
    | ReadWorkspace | WriteHnlangDraft | ReadBuildLog | RunWorkspaceBuild | UseProviderNetwork
    | ModifySystem | WriteKernel | WriteBoot | ChangePolicy | ControlDriver | ChangeAuditLog

  datatype Decision = Deny | Allow | RequireApproval

  function Decide(c: Capability): Decision {
    if c == ReadWorkspace || c == WriteHnlangDraft || c == ReadBuildLog then Allow
    else if c == RunWorkspaceBuild || c == UseProviderNetwork then RequireApproval
    else Deny
  }

  predicate HasParentReference(path: string) {
    exists i :: 0 <= i < |path| - 1 && path[i] == '.' && path[i + 1] == '.'
  }

  predicate HasHnlangSuffix(path: string) {
    |path| >= 3 && path[|path| - 3..] == ".hn"
  }

  const WORKSPACE := "/workspace/"
  const DRAFT_PATH := WORKSPACE + "main.hn"

  // The decision for a path; a missing path is denied wherever paths matter.
  function DecidePath(c: Capability, path: Option<string>): Decision {
    if Decide(c) != Allow then Decide(c)
    else if path == None || !(WORKSPACE <= CStr(path.value)) || HasParentReference(CStr(path.value)) then Deny
    else if c == WriteHnlangDraft && !HasHnlangSuffix(CStr(path.value)) then Deny
    else Allow
  }

  method HasPrefix(text: Option<string>, prefix: string) returns (has: bool)
    requires NUL !in prefix
    ensures has == (text.Some? && prefix <= CStr(text.value))
  {
    if text == None {
      return false;
    }
    var index := 0;
    while index < |prefix|
      invariant index <= |prefix| && index <= |CStr(text.value)| && CStr(text.value)[..index] == prefix[..index]
    {
      if At(text.value, index) != prefix[index] {
        return false;
      }
      index := index + 1;
    }
    return true;
  }

  method ContainsParentReference(path: Option<string>) returns (has: bool)
    ensures has == (path == None || HasParentReference(CStr(path.value)))
  {
    if path == None {
      return true;
    }
    ghost var whole := CStr(path.value);
    var i := 0;
    while At(path.value, i) != NUL
      invariant i <= |whole|
      invariant forall j :: 0 <= j < i && j < |whole| - 1 ==> !(whole[j] == '.' && whole[j + 1] == '.')
      decreases |whole| - i
    {
      if path.value[i] == '.' && At(path.value, i + 1) == '.' {
        assert whole[i] == '.' && whole[i + 1] == '.';
        return true;
      }
      i := i + 1;
    }
    return false;
  }

  method EndsWithHnlang(path: Option<string>) returns (has: bool)
    ensures has == (path.Some? && HasHnlangSuffix(CStr(path.value)))
  {
    if path == None {
      return false;
    }
    ghost var whole := CStr(path.value);
    var length := 0;
    while At(path.value, length) != NUL
      invariant length <= |whole|
      decreases |whole| - length
    {
      length := length + 1;
    }
    SuffixLetters(whole);
    has := length >= 3 && path.value[length - 3] == '.' && path.value[length - 2] == 'h' && path.value[length - 1] == 'n';
  }

  lemma SuffixLetters(path: string)
    ensures HasHnlangSuffix(path) <==>
            |path| >= 3 && path[|path| - 3] == '.' && path[|path| - 2] == 'h' && path[|path| - 1] == 'n'
  {
    if |path| >= 3 {
      var tail := path[|path| - 3..];
      assert tail == [path[|path| - 3], path[|path| - 2], path[|path| - 1]];
    }
  }

  method DecideOnPath(c: Capability, path: Option<string>) returns (decision: Decision)
    ensures decision == DecidePath(c, path)
  {
    if Decide(c) != Allow {
      return Decide(c);
    }
    var inside := HasPrefix(path, WORKSPACE);
    var parent := ContainsParentReference(path);
    if !inside || parent {
      return Deny;
    }
    var hnlang := EndsWithHnlang(path);
    if c == WriteHnlangDraft && !hnlang {
      return Deny;
    }
    return Allow;
  }

  // ---------------------------------------------------------------- what an allowed path resolves to

  // The directories an absolute path leads through, `.` skipped and `..` going up.
  function Resolve(parts: seq<string>, at: seq<string>): seq<string>
    decreases |parts|
  {
    if parts == [] then at
    else if parts[0] == "" || parts[0] == "." then Resolve(parts[1..], at)
    else if parts[0] == ".." then Resolve(parts[1..], if at == [] then [] else at[..|at| - 1])
    else Resolve(parts[1..], at + [parts[0]])
  }

  lemma {:induction false} ResolveGrows(parts: seq<string>, at: seq<string>)
    requires ".." !in parts
    ensures at <= Resolve(parts, at)
    decreases |parts|
  {
    if parts != [] {
      ResolveGrows(parts[1..], if parts[0] == "" || parts[0] == "." then at else at + [parts[0]]);
    }
  }

  lemma {:induction false} FirstPiece(s: string, separator: char)
    ensures Split(s, separator)[0] <= s
  {
    if s != [] {
      FirstPiece(s[1..], separator);
    }
  }

  lemma SliceBehindFirst(s: string, k: nat, n: nat)
    requires k + n + 1 <= |s|
    ensures s[1..][k..k + n] == s[k + 1..k + 1 + n]
  {
  }

  // Every piece of a split stands somewhere in the string.
  lemma {:induction false} PieceInside(s: string, separator: char, i: nat) returns (k: nat)
    requires i < |Split(s, separator)|
    ensures var piece := Split(s, separator)[i]; k + |piece| <= |s| && s[k..k + |piece|] == piece
  {
    var parts := Split(s, separator);
    if s == [] || i == 0 {
      FirstPiece(s, separator);
      k := 0;
    } else {
      var rest := Split(s[1..], separator);
      var j := if s[0] == separator then i - 1 else i;
      assert parts[i] == rest[j];
      hide Split;
      k := PieceInside(s[1..], separator, j);
      SliceBehindFirst(s, k, |rest[j]|);
      k := k + 1;
    }
  }

  lemma ParentPieceFound(path: string, i: nat)
    requires i < |Split(path, '/')| && Split(path, '/')[i] == ".."
    ensures HasParentReference(path)
  {
    var k := PieceInside(path, '/', i);
    hide Split;
    var piece := path[k..k + 2];
    assert piece[0] == path[k] && piece[1] == path[k + 1];
  }

  lemma NoParentPiece(path: string)
    requires !HasParentReference(path)
    ensures ".." !in Split(path, '/')
  {
    forall i | 0 <= i < |Split(path, '/')|
      ensures Split(path, '/')[i] != ".."
    {
      if Split(path, '/')[i] == ".." {
        ParentPieceFound(path, i);
      }
    }
  }

  /** Every path the policy allows resolves to /workspace or below. */
  lemma AllowedStaysInside(c: Capability, path: string)
    requires DecidePath(c, Some(path)) == Allow
    ensures ["workspace"] <= Resolve(Split(CStr(path), '/'), [])
  {
    var whole := CStr(path);
    var rest := whole[11..];
    NoParentPiece(whole);
    assert whole == "" + "/" + ("workspace" + "/" + rest);
    SplitField("", "workspace" + "/" + rest, '/');
    SplitField("workspace", rest, '/');
    hide Split, CStr;
    var parts := Split(whole, '/');
    assert parts == ["", "workspace"] + Split(rest, '/');
    assert parts[1..][1..] == Split(rest, '/') && parts[1..][0] == "workspace";
    assert [] + ["workspace"] == ["workspace"];
    ResolveGrows(Split(rest, '/'), ["workspace"]);
  }

  // What no path makes allowed.
  const FORBIDDEN := {ModifySystem, WriteKernel, WriteBoot, ChangePolicy, ControlDriver, ChangeAuditLog}
  const ASKED := {RunWorkspaceBuild, UseProviderNetwork}

  /** The whole policy: changing the system, the kernel, the boot code, the policy, a driver or the audit log is denied
      on every path; building and the network need approval on every path; and reading the workspace or the build log
      or writing a draft is allowed exactly on a path below /workspace/ with no two dots side by side, for a draft
      one that ends in .hn, and denied on every other path. */
  lemma PolicyExactly(c: Capability, path: Option<string>)
    ensures DecidePath(c, path) == RequireApproval <==> c in ASKED
    ensures c in FORBIDDEN ==> DecidePath(c, path) == Deny
    ensures c !in FORBIDDEN && c !in ASKED ==> c == ReadWorkspace || c == ReadBuildLog || c == WriteHnlangDraft
    ensures DecidePath(c, path) == Allow <==>
            && c !in FORBIDDEN && c !in ASKED
            && path.Some? && WORKSPACE <= CStr(path.value)
            && (forall i :: 0 <= i < |CStr(path.value)| - 1 && CStr(path.value)[i] == '.' ==>
                  CStr(path.value)[i + 1] != '.')
            && (c == WriteHnlangDraft ==> HasHnlangSuffix(CStr(path.value)))
  {
    hide CStr, HasHnlangSuffix;
    if path.Some? {
      var whole := CStr(path.value);
      assert HasParentReference(whole) <==>
             !(forall i :: 0 <= i < |whole| - 1 && whole[i] == '.' ==> whole[i + 1] != '.');
    }
  }

  /** The policy is stricter than staying inside: any file name with two dots side by side in it, like `a..b`, is
      denied, though its path resolves to that file right below /workspace. */
  lemma DotsInNameDenied(c: Capability, name: string)
    requires c !in ASKED && NUL !in name && '/' !in name && HasParentReference(name) && |name| > 2
    ensures DecidePath(c, Some(WORKSPACE + name)) == Deny
    ensures Resolve(Split(CStr(WORKSPACE + name), '/'), []) == ["workspace", name]
  {
    CStrWhole(WORKSPACE + name);
    hide Split, CStr, HasHnlangSuffix, HasParentReference, Resolve;
    DotsDenied(name);
    FileParts(name);
    ResolveThree(name);
  }

  lemma DotsDenied(name: string)
    requires HasParentReference(name)
    ensures HasParentReference(WORKSPACE + name)
  {
    var i :| 0 <= i < |name| - 1 && name[i] == '.' && name[i + 1] == '.';
    var path := WORKSPACE + name;
    assert path[11 + i] == '.' && path[11 + i + 1] == '.';
  }

  lemma FileParts(name: string)
    requires '/' !in name
    ensures Split(WORKSPACE + name, '/') == ["", "workspace", name]
  {
    assert WORKSPACE + name == "" + "/" + ("workspace" + "/" + name);
    SplitField("", "workspace" + "/" + name, '/');
    SplitField("workspace", name, '/');
    SplitWhole(name, '/');
    hide Split;
  }

  lemma ResolveThree(name: string)
    requires |name| > 2
    ensures Resolve(["", "workspace", name], []) == ["workspace", name]
  {
    var parts := ["", "workspace", name];
    assert parts[1..] == ["workspace", name] && ["workspace", name][1..] == [name] && [name][1..] == [];
    assert [] + ["workspace"] == ["workspace"] && ["workspace"] + [name] == ["workspace", name];
    assert Resolve([name], ["workspace"]) == Resolve([], ["workspace", name]);
    assert Resolve(["workspace", name], []) == Resolve([name], ["workspace"]);
  }

  /** Writing the draft file is always allowed. */
  lemma DraftAllowed()
    ensures DecidePath(WriteHnlangDraft, Some(DRAFT_PATH)) == Allow
  {
    var path := DRAFT_PATH;
    assert |path| == 18 && path[15] == '.' && forall i :: 0 <= i < 18 && i != 15 ==> path[i] != '.' && path[i] != NUL;
    CStrWhole(path);
    assert path[15..] == ".hn";
    hide CStr;
  }

  // ---------------------------------------------------------------- the RAM file system

  datatype Data = NoData | Constant(text: string) | DraftBuffer

  datatype Node = Node(path: string, isFile: bool, size: nat, data: Data)

  const VERSION := "HNMos Kernel 01\nVersion: v0.10 filesystem foundation\nStorage: readonly kernel ramfs\n"
  const SYSTEM_INFO :=
    "Graphics: framebuffer launcher online\nInput: keyboard mouse event queue\n"
    + "Memory: PMM and early heap online\nFilesystem: readonly system + writable HNLang workspace RAMFS\n"
  const README :=
    "Welcome to HNMos.\nThis is the first built in readonly RAM filesystem.\n"
    + "Use ls and cat from the graphical terminal.\n"

  // The node table when the draft has a given length.
  function Nodes(draftSize: nat): seq<Node> {
    [Node("/", false, 0, NoData),
     Node("/system", false, 0, NoData),
     Node("/system/version", true, |VERSION|, Constant(VERSION)),
     Node("/system/info", true, |SYSTEM_INFO|, Constant(SYSTEM_INFO)),
     Node("/readme.txt", true, |README|, Constant(README)),
     Node("/workspace", false, 0, NoData),
     Node(DRAFT_PATH, true, draftSize, DraftBuffer)]
  }

  datatype Fs = Fs(ready: bool, nodes: seq<Node>, draft: string)

  // Before initialisation; the buffer is linked in with a first draft.
  function Builtin(firstDraft: string): Fs {
    Fs(false, Nodes(0), firstDraft)
  }

  function ContentOf(fs: Fs, n: Node): string {
    match n.data
    case NoData => ""
    case Constant(text) => text
    case DraftBuffer => fs.draft
  }

  function Initialised(fs: Fs): Fs {
    Fs(true, Nodes(|fs.draft|), fs.draft)
  }

  // The file system's write, with nothing but its own path check.
  function Write(fs: Fs, path: Option<string>, data: Option<string>): (Fs, bool) {
    if !fs.ready || data == None || path == None || CStr(path.value) != DRAFT_PATH then (fs, false)
    else
      var draft := Take(CStr(data.value), 1023);
      (Fs(true, Nodes(|draft|), draft), true)
  }

  // The gate in front of it.
  function WriteDraft(fs: Fs, ready: bool, path: Option<string>, data: Option<string>): (Fs, bool) {
    if !ready || data == None || DecidePath(WriteHnlangDraft, path) != Allow then (fs, false)
    else Write(fs, path, data)
  }

  // The first node with the path; an empty or missing path is the root.
  function Find(nodes: seq<Node>, path: string): Option<Node> {
    if nodes == [] then None else if nodes[0].path == path then Some(nodes[0]) else Find(nodes[1..], path)
  }

  function Read(fs: Fs, path: Option<string>): Option<Node> {
    if !fs.ready then None
    else Find(fs.nodes, if path == None || CStr(path.value) == "" then "/" else CStr(path.value))
  }

  class RamFs {
    const buffer: array<char>
    const entries: array<Node>
    var ready: bool

    ghost predicate Valid()
      reads this, buffer, entries
    {
      && buffer.Length == 1024 && NUL in buffer[..]
      && entries.Length == 7
      && entries[..] == Nodes(if ready then |CStr(buffer[..])| else 0)
    }

    ghost function View(): Fs
      reads this, buffer, entries
    {
      Fs(ready, entries[..], CStr(buffer[..]))
    }

    constructor (firstDraft: string)
      requires NUL !in firstDraft && |firstDraft| < 1024
      ensures Valid() && View() == Builtin(firstDraft) && fresh(buffer) && fresh(entries)
    {
      ready := false;
      buffer := new char[1024](i requires i >= 0 => At(firstDraft, i));
      entries := new Node[7](i requires 0 <= i < 7 => Nodes(0)[i]);
      new;
      assert entries[..] == Nodes(0);
      InitialBuffer(buffer[..], firstDraft);
    }

    static method StringEqual(left: string, right: string) returns (equal: bool)
      ensures equal == (CStr(left) == CStr(right))
    {
      var i := 0;
      while At(left, i) != NUL && At(right, i) != NUL
        invariant i <= |CStr(left)| && i <= |CStr(right)| && CStr(left)[..i] == CStr(right)[..i]
        decreases |CStr(left)| - i
      {
        if left[i] != right[i] {
          assert CStr(left)[i] != CStr(right)[i];
          return false;
        }
        i := i + 1;
      }
      return At(left, i) == At(right, i);
    }

    method SetDraftSize(size: nat) returns (found: bool)
      requires entries.Length == 7 && exists n :: entries[..] == Nodes(n)
      modifies entries
      ensures found && entries[..] == Nodes(size)
    {
      ghost var n :| entries[..] == Nodes(n);
      ghost var before := entries[..];
      found := false;
      var i := 0;
      while i < 7
        invariant 0 <= i <= 7 && found == (i > 6)
        invariant entries[..] == if found then Nodes(size) else before
        invariant before == Nodes(n)
      {
        PathsDiffer(i);
        if entries[i].path == DRAFT_PATH {
          entries[i] := entries[i].(size := size, data := DraftBuffer);
          found := true;
        }
        i := i + 1;
      }
    }

    method Init()
      requires Valid()
      modifies this, entries
      ensures Valid() && View() == Initialised(old(View()))
    {
      ghost var draft := CStr(buffer[..]);
      var length := 0;
      while buffer[length] != NUL
        invariant length <= |draft| < 1024
        decreases |draft| - length
      {
        length := length + 1;
      }
      var found := SetDraftSize(length);
      ready := true;
    }

    method WriteWorkspace(path: Option<string>, data: Option<string>) returns (written: bool)
      requires Valid()
      modifies buffer, entries
      ensures Valid() && (View(), written) == Write(old(View()), path, data)
    {
      if !ready || data == None || path == None {
        return false;
      }
      DraftPathPlain();
      var equal := StringEqual(path.value, DRAFT_PATH);
      if !equal {
        return false;
      }
      ghost var size := |CStr(buffer[..])|;
      assert entries[..] == Nodes(size);
      ghost var text := CStr(data.value);
      var length := 0;
      while At(data.value, length) != NUL && length + 1 < 1024
        invariant length <= |text| && length <= 1023
        invariant buffer[..length] == text[..length]
        invariant entries[..] == Nodes(size)
        decreases |text| - length
      {
        buffer[length] := data.value[length];
        length := length + 1;
      }
      buffer[length] := NUL;
      assert text[..length] == Take(text, 1023);
      CStrUnique(buffer[..], length);
      assert NUL in buffer[..];
      written := SetDraftSize(length);
    }
  }

  lemma DraftPathPlain()
    ensures CStr(DRAFT_PATH) == DRAFT_PATH
  {
    CStrWhole(DRAFT_PATH);
  }

  lemma PathsDiffer(i: nat)
    requires i < 7
    ensures forall n :: Nodes(n)[i].path == DRAFT_PATH <==> i == 6
  {
    assert |DRAFT_PATH| == 18;
    assert |"/"| == 1 && |"/system"| == 7 && |"/system/version"| == 15 && |"/system/info"| == 12;
    assert |"/readme.txt"| == 11 && |"/workspace"| == 10;
  }

  lemma InitialBuffer(buffer: string, text: string)
    requires |text| < |buffer| == 1024 && NUL !in text && forall i :: 0 <= i < 1024 ==> buffer[i] == At(text, i)
    ensures CStr(buffer) == text && NUL in buffer
  {
    assert buffer[..|text|] == text && buffer[|text|] == NUL;
    CStrUnique(buffer, |text|);
  }

  // ---------------------------------------------------------------- the gate

  class Vfs {
    const ramfs: RamFs
    var ready: bool

    ghost predicate Valid()
      reads this, ramfs, ramfs.buffer, ramfs.entries
    {
      ramfs.Valid()
    }

    constructor (ramfs: RamFs)
      requires ramfs.Valid()
      modifies ramfs, ramfs.entries
      ensures this.ramfs == ramfs && Valid() && ready
      ensures ramfs.View() == Initialised(old(ramfs.View()))
    {
      this.ramfs := ramfs;
      ready := true;
      new;
      ramfs.Init();
    }

    method WriteHnlangDraft(path: Option<string>, data: Option<string>) returns (written: bool)
      requires Valid()
      modifies ramfs.buffer, ramfs.entries
      ensures Valid() && (ramfs.View(), written) == WriteDraft(old(ramfs.View()), ready, path, data)
    {
      if !ready || data == None {
        return false;
      }
      var decision := DecideOnPath(Capability.WriteHnlangDraft, path);
      if decision != Allow {
        return false;
      }
      written := ramfs.WriteWorkspace(path, data);
    }
  }

  // ---------------------------------------------------------------- runs of draft writes

  datatype Call = Call(path: Option<string>, data: Option<string>)

  function Run(fs: Fs, calls: seq<Call>): Fs
    decreases |calls|
  {
    if calls == [] then fs else Run(WriteDraft(fs, true, calls[0].path, calls[0].data).0, calls[1..])
  }

  predicate Accepted(c: Call) {
    c.data.Some? && c.path.Some? && CStr(c.path.value) == DRAFT_PATH
  }

  // What the draft reads as after the calls: the last accepted data, cut at 1023 characters.
  function LastWritten(calls: seq<Call>, before: string): string {
    if calls == [] then before
    else
      var last := calls[|calls| - 1];
      if Accepted(last) then Take(CStr(last.data.value), 1023) else LastWritten(calls[..|calls| - 1], before)
  }

  ghost predicate Inv(fs: Fs) {
    fs.ready && fs.nodes == Nodes(|fs.draft|)
  }

  lemma WriteDraftEffect(fs: Fs, c: Call)
    requires Inv(fs)
    ensures Inv(WriteDraft(fs, true, c.path, c.data).0)
    ensures WriteDraft(fs, true, c.path, c.data).1 == Accepted(c)
    ensures WriteDraft(fs, true, c.path, c.data).0.draft ==
            if Accepted(c) then Take(CStr(c.data.value), 1023) else fs.draft
  {
    hide Nodes, CStr, Take, HasParentReference, HasHnlangSuffix;
    if Accepted(c) {
      DraftAllowed();
      DraftPathPlain();
    }
  }

  lemma {:induction false} LastWrittenFirst(c: Call, rest: seq<Call>, before: string)
    ensures LastWritten([c] + rest, before) ==
            LastWritten(rest, if Accepted(c) then Take(CStr(c.data.value), 1023) else before)
  {
    var calls := [c] + rest;
    if rest == [] {
      assert calls[..0] == [];
    } else {
      assert calls[..|calls| - 1] == [c] + rest[..|rest| - 1];
      LastWrittenFirst(c, rest[..|rest| - 1], before);
    }
  }

  lemma {:induction false} RunEffect(fs: Fs, calls: seq<Call>)
    requires Inv(fs)
    ensures Inv(Run(fs, calls)) && Run(fs, calls).draft == LastWritten(calls, fs.draft)
    decreases |calls|
  {
    if calls != [] {
      WriteDraftEffect(fs, calls[0]);
      LastWrittenFirst(calls[0], calls[1..], fs.draft);
      assert calls == [calls[0]] + calls[1..];
      hide WriteDraft, Accepted, LastWritten, Inv;
      RunEffect(WriteDraft(fs, true, calls[0].path, calls[0].data).0, calls[1..]);
    }
  }

  /** Over every run of draft writes, with any paths and data: only the draft file changes, it reads back as
      the first 1023 characters last written to it, every file's size is the length of its data, and reading
      any other path gives what it gave at the start. */
  lemma OnlyTheDraftChanges(firstDraft: string, calls: seq<Call>, path: Option<string>)
    ensures var start, fs := Initialised(Builtin(firstDraft)), Run(Initialised(Builtin(firstDraft)), calls);
            && fs.draft == LastWritten(calls, firstDraft)
            && Read(fs, Some(DRAFT_PATH)) == Some(Node(DRAFT_PATH, true, |fs.draft|, DraftBuffer))
            && (forall i :: 0 <= i < |fs.nodes| && fs.nodes[i].isFile ==>
                  fs.nodes[i].size == |ContentOf(fs, fs.nodes[i])|)
            && (path == None || CStr(path.value) != DRAFT_PATH ==> Read(fs, path) == Read(start, path))
  {
    var start := Initialised(Builtin(firstDraft));
    RunEffect(start, calls);
    var fs := Run(start, calls);
    hide Run, LastWritten;
    DraftPathPlain();
    hide CStr;
    FindDraft(|fs.draft|);
    var wanted := if path == None || CStr(path.value) == "" then "/" else CStr(path.value);
    if wanted != DRAFT_PATH {
      FindOther(|fs.draft|, |firstDraft|, wanted);
    }
    assert |DRAFT_PATH| == 18;
  }

  lemma {:induction false} FindAt(nodes: seq<Node>, i: nat)
    requires i < |nodes| && forall j :: 0 <= j < i ==> nodes[j].path != nodes[i].path
    ensures Find(nodes, nodes[i].path) == Some(nodes[i])
  {
    if i > 0 {
      FindAt(nodes[1..], i - 1);
    }
  }

  lemma {:induction false} FindSame(a: seq<Node>, b: seq<Node>, path: string)
    requires |a| == |b|
    requires forall i :: 0 <= i < |a| ==> a[i].path == b[i].path && (a[i].path == path ==> a[i] == b[i])
    ensures Find(a, path) == Find(b, path)
  {
    if a != [] {
      FindSame(a[1..], b[1..], path);
    }
  }

  lemma FindDraft(size: nat)
    ensures Find(Nodes(size), DRAFT_PATH) == Some(Node(DRAFT_PATH, true, size, DraftBuffer))
  {
    var nodes := Nodes(size);
    forall i | 0 <= i < 7 ensures nodes[i].path == DRAFT_PATH <==> i == 6 {
      PathsDiffer(i);
    }
    FindAt(nodes, 6);
  }

  lemma FindOther(size: nat, other: nat, path: string)
    requires path != DRAFT_PATH
    ensures Find(Nodes(size), path) == Find(Nodes(other), path)
  {
    FindSame(Nodes(size), Nodes(other), path);
  }

  lemma {:induction false} FindNone(nodes: seq<Node>, path: string)
    requires forall i :: 0 <= i < |nodes| ==> nodes[i].path != path
    ensures Find(nodes, path) == None
  {
    if nodes != [] {
      FindNone(nodes[1..], path);
    }
  }

  lemma PathLengths(size: nat)
    ensures var nodes := Nodes(size);
            && |nodes[0].path| == 1 && |nodes[1].path| == 7 && |nodes[2].path| == 15 && |nodes[3].path| == 12
            && |nodes[4].path| == 11 && |nodes[5].path| == 10 && |nodes[6].path| == 18 && nodes[0].path == "/"
  {
    assert |"/"| == 1 && |"/system"| == 7 && |"/system/version"| == 15 && |"/system/info"| == 12;
    assert |"/readme.txt"| == 11 && |"/workspace"| == 10 && |DRAFT_PATH| == 18;
  }

  /** Every file and directory is read under its own path, the root also under a missing or empty one, and nothing
      else is. */
  lemma ReadsExactly(fs: Fs, path: Option<string>)
    requires Inv(fs)
    ensures |fs.nodes| == 7
    ensures path == None || CStr(path.value) == "" ==> Read(fs, path) == Some(fs.nodes[0])
    ensures path.Some? ==>
              forall i :: 0 <= i < 7 && CStr(path.value) == fs.nodes[i].path ==> Read(fs, path) == Some(fs.nodes[i])
    ensures path.Some? && CStr(path.value) != "" && (forall i :: 0 <= i < 7 ==> CStr(path.value) != fs.nodes[i].path)
            ==> Read(fs, path) == None
  {
    var nodes := fs.nodes;
    PathLengths(|fs.draft|);
    assert |nodes| == 7;
    hide CStr, Nodes;
    FindAt(nodes, 0);
    if path.Some? {
      forall i | 0 <= i < 7 && CStr(path.value) == nodes[i].path ensures Read(fs, path) == Some(nodes[i]) {
        FindAt(nodes, i);
      }
      if forall i :: 0 <= i < 7 ==> CStr(path.value) != nodes[i].path {
        FindNone(nodes, CStr(path.value));
      }
    }
  }
}
