/** The directory-sync client (ex1/syncclient.c): reading the ignore list,
    building local paths, parsing the server's two-token messages, applying
    them to the local tree and receiving file contents chunk by chunk.

    The world the client acts on is a `Local` value: the local tree (a map
    from path to node), the bytes still to arrive on the server socket, the
    free space of the disk, the lines printed so far and whether the process
    is still running. */
module SyncClient {
  import opened CText
  import opened Socket

  const MAX_PATH := 2048
  const MAX_IGNORE := 256
  const BUFFER_SIZE := 4096

  datatype Node = File(data: string) | Dir

  /** The lines the client prints, by kind. */
  datatype Report =
    | Created(name: string)
    | Deleted(name: string)
    | DeleteFailed(name: string)
    | MovedFrom(name: string)
    | MovedTo(name: string)
    | Wrote(name: string)
    | OpenFailed(name: string)
    | MkdirFailed(path: string)
    | Unknown(text: string)
    | Malformed(text: string)
    | Disconnected

  datatype Status = Running | Exited(code: int)

  /** `inbox` is the server socket's input (see `Socket`); `free` is the
      number of bytes the disk can still take. */
  datatype Local = Local(tree: map<string, Node>, inbox: seq<string>, free: nat,
                         log: seq<Report>, status: Status)

  // ---------------------------------------------------------------------------
  // Pure string steps

  /** How many characters `fgets(buf, size, fp)` takes from text with data:
      up to `size - 1`, stopping after the first newline. */
  function FgetsLength(content: string, size: nat): (n: nat)
    requires size > 0
    ensures n <= |content| && n < size
    ensures forall k :: 0 <= k < n - 1 ==> content[k] != '\n'
    ensures n < size - 1 && n < |content| ==> n > 0 && content[n - 1] == '\n'
    decreases size
  {
    if content == [] || size == 1 then 0
    else if content[0] == '\n' then 1
    else 1 + FgetsLength(content[1..], size - 1)
  }

  /** The line `fgets` stores. */
  function Fgets(content: string, size: nat): (line: string)
    requires size > 0
  {
    content[..FgetsLength(content, size)]
  }

  /** `read_ignore_list`: the first line of the file, at most MAX_IGNORE - 1
      characters, without its newline; the empty string for an empty file. */
  function ReadIgnoreList(content: string): (list: string)
    ensures list <= content && |list| < MAX_IGNORE
    ensures '\n' !in list
    ensures content == [] ==> list == []
  {
    if content == [] then []
    else
      var line := Fgets(content, MAX_IGNORE);
      var got := CString(line);
      assert got <= line <= content;
      assert forall k :: 0 <= k < |got| - 1 ==> got[k] != '\n';
      if got != [] && got[|got| - 1] == '\n' then got[..|got| - 1] else got
  }

  /** A first line shorter than the cap is read whole, with or without a newline after it. */
  lemma ReadsFirstLine(line: string, more: string)
    requires |line| < MAX_IGNORE - 1 && '\n' !in line && '\0' !in line
    ensures ReadIgnoreList(line + "\n" + more) == line
    ensures ReadIgnoreList(line) == line
  {
    ReadsLineBeforeNewline(line, more);
    ReadsLineAtEnd(line);
  }

  lemma ReadsLineBeforeNewline(line: string, more: string)
    requires |line| < MAX_IGNORE - 1 && '\n' !in line && '\0' !in line
    ensures ReadIgnoreList(line + "\n" + more) == line
  {
    var content := line + "\n" + more;
    AppendAssoc(line, "\n", more);
    FgetsPrefix(line, "\n" + more, MAX_IGNORE);
    assert FgetsLength("\n" + more, MAX_IGNORE - |line|) == 1;
    var fgot := Fgets(content, MAX_IGNORE);
    assert fgot == line + "\n";
    CStringOfPlain(line + "\n");
    var got := CString(fgot);
    assert got == line + "\n";
    assert got[|got| - 1] == '\n' && got[..|got| - 1] == line;
  }

  lemma ReadsLineAtEnd(line: string)
    requires |line| < MAX_IGNORE - 1 && '\n' !in line && '\0' !in line
    ensures ReadIgnoreList(line) == line
  {
    if line != [] {
      FgetsPrefix(line, [], MAX_IGNORE);
      assert line + [] == line;
      var fgot := Fgets(line, MAX_IGNORE);
      assert fgot == line;
      CStringOfPlain(line);
      assert line[|line| - 1] in line;
    }
  }

  /** A longer first line is cut to MAX_IGNORE - 1 characters. */
  lemma LongLineIsCapped(content: string)
    requires |content| >= MAX_IGNORE - 1
    requires forall k :: 0 <= k < MAX_IGNORE - 1 ==> content[k] != '\n' && content[k] != '\0'
    ensures ReadIgnoreList(content) == content[..MAX_IGNORE - 1]
  {
    var line := content[..MAX_IGNORE - 1];
    assert content == line + content[MAX_IGNORE - 1..];
    FgetsPrefix(line, content[MAX_IGNORE - 1..], MAX_IGNORE);
    assert line + [] == line;
    CStringOfPlain(line);
  }

  /** `fgets` copies a newline-free prefix that fits and then goes on after it. */
  lemma {:induction false} FgetsPrefix(line: string, more: string, size: nat)
    requires '\n' !in line && |line| < size
    ensures FgetsLength(line + more, size) == |line| + FgetsLength(more, size - |line|)
    decreases |line|
  {
    if line == [] {
      assert line + more == more;
    } else {
      var whole := line + more;
      assert whole[0] == line[0] && line[0] in line;
      assert whole[1..] == line[1..] + more;
      FgetsPrefix(line[1..], more, size - 1);
    }
  }

  /** The target path: `snprintf` into a buffer of `strlen(local_dir) +
      strlen(filename) + 2` bytes, which always holds the whole join. */
  function JoinPath(localDir: string, name: string): (path: string)
    ensures path == localDir + "/" + name
  {
    Snprintf(localDir + "/" + name, |localDir| + |name| + 2)
  }

  /** `strrchr(s, '/')`. */
  function LastSlash(s: string): (k: Option<nat>)
    ensures k.None? ==> '/' !in s
    ensures k.Some? ==> k.value < |s| && s[k.value] == '/' && '/' !in s[k.value + 1..]
    decreases |s|
  {
    if s == [] then None
    else if s[|s| - 1] == '/' then Some(|s| - 1)
    else
      var k := LastSlash(s[..|s| - 1]);
      assert k.Some? ==> s[k.value + 1..] == s[..|s| - 1][k.value + 1..] + [s[|s| - 1]];
      assert k.None? ==> s == s[..|s| - 1] + [s[|s| - 1]];
      k
  }

  /** The directory part `receive_file` ensures: the target path up to its last slash. */
  function DirPart(path: string): string
  {
    match LastSlash(path)
    case None => path
    case Some(k) => path[..k]
  }

  /** The last slash is at `i` when `s[i]` is a slash and none follows it. */
  lemma {:induction false} LastSlashAt(s: string, i: nat)
    requires i < |s| && s[i] == '/' && '/' !in s[i + 1..]
    ensures LastSlash(s) == Some(i)
    decreases |s|
  {
    if i < |s| - 1 {
      assert s[|s| - 1] == s[i + 1..][|s| - 2 - i];
      assert s[..|s| - 1][i + 1..] == s[i + 1..|s| - 1];
      LastSlashAt(s[..|s| - 1], i);
    }
  }

  /** The slash `JoinPath` inserts is the last one when `name` has none. */
  lemma LastSlashOfJoin(localDir: string, name: string)
    requires '/' !in name
    ensures LastSlash(localDir + "/" + name) == Some(|localDir|)
  {
    var path := localDir + "/" + name;
    assert path[|localDir| + 1..] == name;
    LastSlashAt(path, |localDir|);
  }

  /** For a single-component name the directory ensured is `local_dir` itself. */
  lemma DirOfJoin(localDir: string, name: string)
    requires '/' !in name
    ensures DirPart(JoinPath(localDir, name)) == localDir
  {
    LastSlashOfJoin(localDir, name);
    assert (localDir + "/" + name)[..|localDir|] == localDir;
  }

  // ---------------------------------------------------------------------------
  // The two-token parse

  /** A `%Ns` conversion of width `width`: skip white space, then take the
      non-space characters that follow, at most `width` of them; the word
      and the text after it. */
  function ScanWord(text: string, width: nat): (r: Option<(string, string)>)
    ensures r.Some? ==> 0 < |r.value.0| <= width && |r.value.1| < |text|
    ensures r.Some? ==> forall k :: 0 <= k < |r.value.0| ==> !IsSpace(r.value.0[k])
  {
    var t := text[SpaceRun(text)..];
    var n := if WordRun(t) < width then WordRun(t) else width;
    if n == 0 then None else Some((t[..n], t[n..]))
  }

  /** `sscanf(text, "%15s %s", command, filename)` when it returns 2. The
      plain `%s` has no width, so the second word is read whole here; in C a
      word of MAX_PATH or more characters overruns `filename`. */
  function ScanCommand(text: string): (r: Option<(string, string)>)
    ensures r.Some? ==> 0 < |r.value.0| <= 15 && r.value.1 != []
    ensures r.Some? ==> forall k :: 0 <= k < |r.value.0| ==> !IsSpace(r.value.0[k])
    ensures r.Some? ==> forall k :: 0 <= k < |r.value.1| ==> !IsSpace(r.value.1[k])
  {
    match ScanWord(text, 15)
    case None => None
    case Some((cmd, after)) =>
      match ScanWord(after, |after|)
      case None => None
      case Some((name, _)) => Some((cmd, name))
  }

  /** A blank message yields no tokens. */
  lemma BlankDoesNotParse(text: string)
    requires forall k :: 0 <= k < |text| ==> IsSpace(text[k])
    ensures ScanCommand(text) == None
  {
    assert SpaceRun(text) == |text|;
  }

  /** Every character of `s` is white space. */
  predicate Spaces(s: string)
  {
    forall k :: 0 <= k < |s| ==> IsSpace(s[k])
  }

  /** A word followed by white space or nothing is read whole. */
  lemma {:induction false} WordRunOf(w: string, rest: string)
    requires forall k :: 0 <= k < |w| ==> !IsSpace(w[k])
    requires rest == [] || IsSpace(rest[0])
    ensures WordRun(w + rest) == |w|
    ensures (w + rest)[..|w|] == w && (w + rest)[|w|..] == rest
    decreases |w|
  {
    if w == [] {
      assert w + rest == rest;
    } else {
      assert (w + rest)[0] == w[0];
      assert (w + rest)[1..] == w[1..] + rest;
      WordRunOf(w[1..], rest);
    }
  }

  /** White space followed by a non-space or nothing is skipped whole. */
  lemma {:induction false} SpaceRunOf(sp: string, rest: string)
    requires Spaces(sp)
    requires rest == [] || !IsSpace(rest[0])
    ensures SpaceRun(sp + rest) == |sp|
    ensures (sp + rest)[|sp|..] == rest
    decreases |sp|
  {
    if sp == [] {
      assert sp + rest == rest;
    } else {
      assert (sp + rest)[0] == sp[0];
      assert (sp + rest)[1..] == sp[1..] + rest;
      SpaceRunOf(sp[1..], rest);
    }
  }

  /** White space, then a word that fits the width and is followed by white
      space or nothing: the conversion reads that word and stops after it. */
  lemma ScanWordOf(lead: string, w: string, rest: string, width: nat)
    requires Spaces(lead)
    requires 0 < |w| <= width && forall k :: 0 <= k < |w| ==> !IsSpace(w[k])
    requires rest == [] || IsSpace(rest[0])
    ensures ScanWord(lead + w + rest, width) == Some((w, rest))
  {
    var text := lead + w + rest;
    AppendAssoc(lead, w, rest);
    assert (w + rest)[0] == w[0];
    SpaceRunOf(lead, w + rest);
    assert text[SpaceRun(text)..] == w + rest;
    WordRunOf(w, rest);
  }

  /** A word longer than the width is cut: the conversion reads its first
      `width` characters and leaves the rest of the word. */
  lemma ScanWordSplits(w: string, rest: string, width: nat)
    requires 0 < width < |w| && forall k :: 0 <= k < |w| ==> !IsSpace(w[k])
    requires rest == [] || IsSpace(rest[0])
    ensures ScanWord(w + rest, width) == Some((w[..width], w[width..] + rest))
  {
    var text := w + rest;
    assert text[0] == w[0];
    assert text[SpaceRun(text)..] == text;
    WordRunOf(w, rest);
    assert text[..width] == w[..width];
    assert text[width..] == w[width..] + rest;
  }

  /** A well-formed message parses back to its command and file name. */
  lemma ScanCommandOf(lead: string, cmd: string, gap: string, name: string, rest: string)
    requires Spaces(lead) && Spaces(gap) && gap != []
    requires 0 < |cmd| <= 15 && forall k :: 0 <= k < |cmd| ==> !IsSpace(cmd[k])
    requires name != [] && forall k :: 0 <= k < |name| ==> !IsSpace(name[k])
    requires rest == [] || IsSpace(rest[0])
    ensures ScanCommand(lead + cmd + gap + name + rest) == Some((cmd, name))
  {
    var after := gap + name + rest;
    CommandText(lead + cmd, gap, name, rest);
    assert after[0] == gap[0];
    ScanWordOf(lead, cmd, after, 15);
    ScanWordOf(gap, name, rest, |after|);
  }

  lemma CommandText(head: string, gap: string, name: string, rest: string)
    ensures head + gap + name + rest == head + (gap + name + rest)
  {
    AppendAssoc(head, gap + name, rest);
    AppendAssoc(head, gap, name);
  }

  /** A first word longer than 15 characters is split: its first 15
      characters are the command and the rest of the word is the file name. */
  lemma LongCommandIsSplit(cmd: string, name: string)
    requires |cmd| > 15 && forall k :: 0 <= k < |cmd| ==> !IsSpace(cmd[k])
    requires name != [] && forall k :: 0 <= k < |name| ==> !IsSpace(name[k])
    ensures ScanCommand(cmd + " " + name) == Some((cmd[..15], cmd[15..]))
  {
    AppendAssoc(cmd, " ", name);
    ScanWordSplits(cmd, " " + name, 15);
    var tail, after := cmd[15..], cmd[15..] + (" " + name);
    assert [] + tail + (" " + name) == after;
    ScanWordOf([], tail, " " + name, |after|);
  }

  // ---------------------------------------------------------------------------
  // The local file system

  /** The directory that must exist for `path` to be created: the root for
      "/x"; the current directory (which exists) for a path without a slash. */
  predicate ParentExists(tree: map<string, Node>, path: string)
  {
    match LastSlash(path)
    case None => true
    case Some(k) => k == 0 || (path[..k] in tree && tree[path[..k]].Dir?)
  }

  /** `ensure_directory(dir)`: nothing when `stat` finds the path (whatever
      it is), otherwise `mkdir`; `None` when `mkdir` fails, which exits. */
  function EnsureDirectory(tree: map<string, Node>, dir: string): (r: Option<map<string, Node>>)
    ensures r.Some? ==> dir in r.value && r.value - {dir} == tree - {dir}
    ensures dir in tree ==> r == Some(tree)
  {
    if dir in tree then Some(tree)
    else if dir != [] && ParentExists(tree, dir) then Some(tree[dir := Dir])
    else None
  }

  /** `open(path, O_WRONLY | O_CREAT | O_TRUNC)` succeeds. */
  predicate CanOpen(tree: map<string, Node>, path: string)
  {
    (path !in tree || tree[path].File?) && ParentExists(tree, path)
  }

  /** `remove(path)` succeeds: a file, or a directory with nothing below it. */
  predicate Removable(tree: map<string, Node>, path: string)
  {
    path in tree && (tree[path].File? || forall q :: q in tree ==> !(path + "/" <= q))
  }

  /** What `write(fd, buf, n)` returns when the disk has `free` bytes left:
      as much as fits, or -1 (no space) when nothing does. */
  function Written(free: nat, n: nat): (w: int)
    ensures n > 0 ==> (w == -1 || 0 < w <= n) && (w == -1 <==> free == 0)
    ensures w == n <==> n <= free && (n > 0 || free > 0)
  {
    if free == 0 then -1 else if free < n then free else n
  }

  // ---------------------------------------------------------------------------
  // Receiving a file

  /** The chunk loop of `receive_file` on the opened file `path`: receive up
      to BUFFER_SIZE bytes, write them, and stop at the end of the stream, at
      a write that does not take every byte, or after a chunk shorter than
      BUFFER_SIZE. */
  function Transfer(s: Local, path: string): (t: Local)
    requires path in s.tree && s.tree[path].File?
    ensures path in t.tree && t.tree[path].File? && t.tree == s.tree[path := t.tree[path]]
    ensures s.tree[path].data <= t.tree[path].data
    ensures t.log == s.log && t.status == s.status
    ensures |Pending(t.inbox)| <= |Pending(s.inbox)|
    decreases |Pending(s.inbox)|
  {
    var r := Receive(s.inbox, BUFFER_SIZE);
    if r.0 == [] then s
    else
      var w := Written(s.free, |r.0|);
      var kept := if w < 0 then 0 else w;
      var s1 := s.(inbox := r.1, free := s.free - kept,
                   tree := s.tree[path := File(s.tree[path].data + r.0[..kept])]);
      if w != |r.0| || |r.0| < BUFFER_SIZE then s1 else Transfer(s1, path)
  }

  /** The whole of `receive_file(name)`. */
  function ReceiveFileSpec(localDir: string, s: Local, name: string): Local
  {
    var path := JoinPath(localDir, name);
    match EnsureDirectory(s.tree, DirPart(path))
    case None => s.(log := s.log + [MkdirFailed(DirPart(path))], status := Exited(1))
    case Some(tree) =>
      if !CanOpen(tree, path) then s.(tree := tree, log := s.log + [OpenFailed(name)])
      else
        var t := Transfer(s.(tree := tree[path := File([])]), path);
        t.(log := t.log + [Wrote(name)])
  }

  /** The bytes of the arrivals, in order. */
  function Concat(chunks: seq<string>): string
    decreases |chunks|
  {
    if chunks == [] then [] else chunks[0] + Concat(chunks[1..])
  }

  /** The first arrival received whole and written whole. */
  function Accept(s: Local, path: string): (t: Local)
    requires path in s.tree && s.tree[path].File?
    requires s.inbox != [] && |s.inbox[0]| <= s.free
    ensures path in t.tree && t.tree[path] == File(s.tree[path].data + s.inbox[0])
  {
    s.(inbox := s.inbox[1..], free := s.free - |s.inbox[0]|,
       tree := s.tree[path := File(s.tree[path].data + s.inbox[0])])
  }

  /** A full chunk that fits on the disk is written and the loop goes on. */
  lemma TransferFullChunk(s: Local, path: string)
    requires path in s.tree && s.tree[path].File?
    requires s.inbox != [] && |s.inbox[0]| == BUFFER_SIZE <= s.free
    ensures Transfer(s, path) == Transfer(Accept(s, path), path)
  {
    var r := Receive(s.inbox, BUFFER_SIZE);
    assert r == (s.inbox[0], s.inbox[1..]);
    var s1 := s.(inbox := r.1, free := s.free - BUFFER_SIZE,
                 tree := s.tree[path := File(s.tree[path].data + r.0[..BUFFER_SIZE])]);
    assert r.0[..BUFFER_SIZE] == s.inbox[0];
    assert s1 == Accept(s, path);
  }

  /** A shorter chunk that fits on the disk is written and ends the loop. */
  lemma TransferShortChunk(s: Local, path: string)
    requires path in s.tree && s.tree[path].File?
    requires s.inbox != [] && 0 < |s.inbox[0]| < BUFFER_SIZE && |s.inbox[0]| <= s.free
    ensures Transfer(s, path) == Accept(s, path)
  {
    assert s.inbox[0][..|s.inbox[0]|] == s.inbox[0];
  }

  /** A closed connection ends the transfer with nothing written. */
  lemma TransferClosed(s: Local, path: string)
    requires path in s.tree && s.tree[path].File?
    requires s.inbox == [] || s.inbox[0] == []
    ensures Transfer(s, path) == s
  {
    assert Receive(s.inbox, BUFFER_SIZE).0 == [];
  }

  /** The bytes of the first `j` arrivals: the first one, then the next `j - 1`. */
  lemma ConcatPrefix(chunks: seq<string>, j: nat)
    requires 0 < j <= |chunks|
    ensures Concat(chunks[..j]) == chunks[0] + Concat(chunks[1..][..j - 1])
  {
    var p := chunks[..j];
    assert p[0] == chunks[0];
    assert p[1..] == chunks[1..][..j - 1];
  }

  /** After a full chunk is accepted, the remaining arrivals are those after the first. */
  lemma AcceptedRest(s: Local, path: string, j: nat)
    requires path in s.tree && s.tree[path].File?
    requires 0 < j <= |s.inbox| && |s.inbox[0]| <= s.free
    ensures var s1 := Accept(s, path);
            s1.inbox[..j - 1] == s.inbox[1..][..j - 1] && s1.inbox[j - 1..] == s.inbox[j..]
            && (forall k :: 0 <= k < j - 1 ==> s1.inbox[k] == s.inbox[k + 1])
  {
  }

  /** With room on the disk, the file gets the in-order concatenation of the
      full BUFFER_SIZE chunks and the first shorter one, and the arrivals
      after that are left for the message loop. A file of exactly BUFFER_SIZE
      bytes thus also takes in the next message. */
  lemma {:induction false} TransferStopsAfterShortChunk(s: Local, path: string, j: nat)
    requires path in s.tree && s.tree[path].File?
    requires j < |s.inbox|
    requires forall k :: 0 <= k < j ==> |s.inbox[k]| == BUFFER_SIZE
    requires 0 < |s.inbox[j]| < BUFFER_SIZE
    requires |Concat(s.inbox[..j + 1])| <= s.free
    ensures var t := Transfer(s, path);
            t.tree[path].data == s.tree[path].data + Concat(s.inbox[..j + 1])
            && t.inbox == s.inbox[j + 1..]
            && t.free == s.free - |Concat(s.inbox[..j + 1])|
    decreases j
  {
    var c := s.inbox[0];
    ConcatPrefix(s.inbox, j + 1);
    if j == 0 {
      assert Concat(s.inbox[1..][..0]) == [];
      assert c + [] == c;
      TransferShortChunk(s, path);
    } else {
      TransferFullChunk(s, path);
      var s1 := Accept(s, path);
      AcceptedRest(s, path, j + 1);
      var more := Concat(s.inbox[1..][..j]);
      TransferStopsAfterShortChunk(s1, path, j - 1);
      AppendAssoc(s.tree[path].data, c, more);
    }
  }

  /** With room on the disk, a stream of full chunks that then closes is written whole. */
  lemma {:induction false} TransferUntilClose(s: Local, path: string, j: nat)
    requires path in s.tree && s.tree[path].File?
    requires j <= |s.inbox|
    requires forall k :: 0 <= k < j ==> |s.inbox[k]| == BUFFER_SIZE
    requires j == |s.inbox| || s.inbox[j] == []
    requires |Concat(s.inbox[..j])| <= s.free
    ensures var t := Transfer(s, path);
            t.tree[path].data == s.tree[path].data + Concat(s.inbox[..j]) && t.inbox == s.inbox[j..]
    decreases j
  {
    if j == 0 {
      TransferClosed(s, path);
      assert s.inbox[..0] == [] && s.inbox[0..] == s.inbox;
      assert s.tree[path].data + [] == s.tree[path].data;
    } else {
      var c := s.inbox[0];
      ConcatPrefix(s.inbox, j);
      TransferFullChunk(s, path);
      var s1 := Accept(s, path);
      AcceptedRest(s, path, j);
      var more := Concat(s.inbox[1..][..j - 1]);
      TransferUntilClose(s1, path, j - 1);
      AppendAssoc(s.tree[path].data, c, more);
    }
  }

  /** A write the disk cannot take in full ends the transfer; the bytes that
      did not fit are lost. */
  lemma ShortWriteStops(s: Local, path: string)
    requires path in s.tree && s.tree[path].File?
    requires s.inbox != [] && 0 < |s.inbox[0]| <= BUFFER_SIZE && s.free < |s.inbox[0]|
    ensures var t := Transfer(s, path);
            t.tree[path].data == s.tree[path].data + s.inbox[0][..s.free]
            && t.inbox == s.inbox[1..] && t.free == 0
  {
  }

  // ---------------------------------------------------------------------------
  // Messages

  /** One message, as `receive_handler` applies it. */
  function Handle(localDir: string, s: Local, text: string): (t: Local)
    ensures |Pending(t.inbox)| <= |Pending(s.inbox)|
  {
    match ScanCommand(text)
    case None => s.(log := s.log + [Malformed(text)])
    case Some((cmd, name)) =>
      var path := JoinPath(localDir, name);
      if cmd == "CREATE" then s.(log := s.log + [Created(name)])
      else if cmd == "DELETE" then
        if Removable(s.tree, path) then s.(tree := s.tree - {path}, log := s.log + [Deleted(name)])
        else s.(log := s.log + [DeleteFailed(name)])
      else if cmd == "MOVED_FROM" then
        s.(tree := if Removable(s.tree, path) then s.tree - {path} else s.tree,
           log := s.log + [MovedFrom(name)])
      else if cmd == "MOVED_TO" then s.(log := s.log + [MovedTo(name)])
      else if cmd == "FILE" then ReceiveFileSpec(localDir, s, name)
      else s.(log := s.log + [Unknown(text)])
  }

  /** One turn of the receive loop: a receive of nothing ends the process
      with status 0, anything else is handled as a C string. */
  function Step(localDir: string, s: Local): (t: Local)
    ensures Pending(s.inbox) == [] ==> t.status == Exited(0) && t.tree == s.tree
    ensures Pending(s.inbox) != [] ==> |Pending(t.inbox)| < |Pending(s.inbox)|
  {
    var r := Receive(s.inbox, BUFFER_SIZE - 1);
    if r.0 == [] then s.(log := s.log + [Disconnected], status := Exited(0))
    else Handle(localDir, s.(inbox := r.1), CString(r.0))
  }

  /** The receive loop, run until the process exits. */
  function Run(localDir: string, s: Local): (t: Local)
    ensures t.status != Running
    decreases |Pending(s.inbox)|, if s.status == Running then 1 else 0
  {
    if s.status != Running then s else Run(localDir, Step(localDir, s))
  }

  /** A message that does not parse changes nothing but the output. */
  lemma MalformedChangesNothing(localDir: string, s: Local, text: string)
    requires ScanCommand(text).None?
    ensures Handle(localDir, s, text) == s.(log := s.log + [Malformed(text)])
  {
  }

  /** CREATE, MOVED_TO and unknown commands leave the tree, the socket and
      the process as they were and print one line. */
  lemma NotifyOnlyCommands(localDir: string, s: Local, text: string)
    requires ScanCommand(text).Some?
    requires ScanCommand(text).value.0 !in {"DELETE", "MOVED_FROM", "FILE"}
    ensures var t := Handle(localDir, s, text);
            t.tree == s.tree && t.inbox == s.inbox && t.free == s.free && t.status == s.status
            && |t.log| == |s.log| + 1
  {
    var cmd, name := ScanCommand(text).value.0, ScanCommand(text).value.1;
    assert cmd != "DELETE" && cmd != "MOVED_FROM" && cmd != "FILE";
    var t := Handle(localDir, s, text);
    if cmd == "CREATE" {
      assert t == s.(log := s.log + [Created(name)]);
    } else if cmd == "MOVED_TO" {
      assert t == s.(log := s.log + [MovedTo(name)]);
    } else {
      assert t == s.(log := s.log + [Unknown(text)]);
    }
  }

  /** DELETE removes exactly `local_dir/name` when it can be removed; for a
      missing path it only reports the failure and the loop goes on. */
  lemma DeleteRemovesOnlyTarget(localDir: string, s: Local, cmd: string, name: string, text: string)
    requires ScanCommand(text) == Some((cmd, name)) && cmd in {"DELETE", "MOVED_FROM"}
    ensures var t := Handle(localDir, s, text);
            var path := localDir + "/" + name;
            t.tree == (if Removable(s.tree, path) then s.tree - {path} else s.tree)
            && t.inbox == s.inbox && t.free == s.free && t.status == s.status
            && (forall q :: q != path ==> (q in t.tree <==> q in s.tree))
            && (cmd == "DELETE" && path !in s.tree ==> t.tree == s.tree && t.log == s.log + [DeleteFailed(name)])
  {
    var path := JoinPath(localDir, name);
    var t := Handle(localDir, s, text);
    if cmd == "DELETE" {
      assert t == if Removable(s.tree, path) then s.(tree := s.tree - {path}, log := s.log + [Deleted(name)])
                  else s.(log := s.log + [DeleteFailed(name)]);
    } else {
      assert cmd != "DELETE";
      assert t == s.(tree := if Removable(s.tree, path) then s.tree - {path} else s.tree,
                     log := s.log + [MovedFrom(name)]);
    }
  }

  /** FILE for a single-component name: the receiver makes sure `local_dir`
      exists, truncates the target and writes the transfer into it. */
  lemma FileTruncatesThenWrites(localDir: string, s: Local, name: string)
    requires name != [] && '/' !in name
    requires localDir in s.tree && s.tree[localDir].Dir?
    requires localDir + "/" + name !in s.tree || s.tree[localDir + "/" + name].File?
    ensures var path := localDir + "/" + name;
            var t := ReceiveFileSpec(localDir, s, name);
            var u := Transfer(s.(tree := s.tree[path := File([])]), path);
            t == u.(log := u.log + [Wrote(name)])
  {
    DirOfJoin(localDir, name);
    LastSlashOfJoin(localDir, name);
  }

  /** A closed connection ends the loop with status 0 and no change to the tree. */
  lemma CloseEndsSession(localDir: string, s: Local)
    requires s.status == Running && Pending(s.inbox) == []
    ensures var t := Run(localDir, s);
            t.status == Exited(0) && t.tree == s.tree && t.log == s.log + [Disconnected]
  {
  }

  // ---------------------------------------------------------------------------
  // The loops

  /** `receive_file(name)`. */
  method ReceiveFile(localDir: string, s: Local, name: string) returns (t: Local)
    ensures t == ReceiveFileSpec(localDir, s, name)
  {
    var path := JoinPath(localDir, name);
    var dir := DirPart(path);
    var made := EnsureDirectory(s.tree, dir);
    if made.None? {
      return s.(log := s.log + [MkdirFailed(dir)], status := Exited(1));
    }
    if !CanOpen(made.value, path) {
      return s.(tree := made.value, log := s.log + [OpenFailed(name)]);
    }
    t := s.(tree := made.value[path := File([])]);
    ghost var start := t;
    while true
      invariant path in t.tree && t.tree[path].File?
      invariant Transfer(t, path) == Transfer(start, path)
      decreases |Pending(t.inbox)|
    {
      var r := Receive(t.inbox, BUFFER_SIZE);
      if r.0 == [] {
        break;
      }
      var w := Written(t.free, |r.0|);
      var kept := if w < 0 then 0 else w;
      t := t.(inbox := r.1, free := t.free - kept,
              tree := t.tree[path := File(t.tree[path].data + r.0[..kept])]);
      if w != |r.0| {
        break;
      }
      if |r.0| < BUFFER_SIZE {
        break;
      }
    }
    t := t.(log := t.log + [Wrote(name)]);
  }

  /** The body of the `receive_handler` loop for one received message. */
  method HandleMessage(localDir: string, s: Local, text: string) returns (t: Local)
    ensures t == Handle(localDir, s, text)
  {
    var parsed := ScanCommand(text);
    if parsed.None? {
      return s.(log := s.log + [Malformed(text)]);
    }
    var cmd, name := parsed.value.0, parsed.value.1;
    var path := JoinPath(localDir, name);
    if cmd == "CREATE" {
      t := s.(log := s.log + [Created(name)]);
    } else if cmd == "DELETE" {
      if Removable(s.tree, path) {
        t := s.(tree := s.tree - {path}, log := s.log + [Deleted(name)]);
      } else {
        t := s.(log := s.log + [DeleteFailed(name)]);
      }
    } else if cmd == "MOVED_FROM" {
      t := s.(log := s.log + [MovedFrom(name)]);
      if Removable(s.tree, path) {
        t := t.(tree := t.tree - {path});
      }
    } else if cmd == "MOVED_TO" {
      t := s.(log := s.log + [MovedTo(name)]);
    } else if cmd == "FILE" {
      t := ReceiveFile(localDir, s, name);
    } else {
      t := s.(log := s.log + [Unknown(text)]);
    }
  }

  /** `receive_handler`: receive and apply messages until the process exits. */
  method Session(localDir: string, s: Local) returns (t: Local)
    ensures t == Run(localDir, s)
  {
    t := s;
    while t.status == Running
      invariant Run(localDir, t) == Run(localDir, s)
      decreases |Pending(t.inbox)|, if t.status == Running then 1 else 0
    {
      var r := Receive(t.inbox, BUFFER_SIZE - 1);
      if r.0 == [] {
        t := t.(log := t.log + [Disconnected], status := Exited(0));
      } else {
        t := HandleMessage(localDir, t.(inbox := r.1), CString(r.0));
      }
    }
  }
}
