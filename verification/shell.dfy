/**
 The text handling of the simple shell (main_simple_bash.c): line editing,
 splitting a line into arguments, and the path arithmetic behind `cd`.
 Strings are the characters before the terminating NUL. The keyboard is
 the sequence of characters `getc` would return; the file system's
 "is this a directory" answer is a parameter.
 */
module Shell {
  import opened Util
  import opened CTypes

  /** SHELL_BUFFER_SIZE, MAX_ARGS and MAX_PATH_LEN. */
  const ShellBufferSize := 256
  const MaxArgs := 16
  const MaxPathLen := 256

  // ---------------------------------------------------------------------
  // shell_read_line
  // ---------------------------------------------------------------------

  predicate IsNewline(c: Char8) { c == '\r' || c == '\n' }
  predicate IsErase(c: Char8) { c as int == 8 || c as int == 127 }
  predicate IsPrintable(c: Char8) { 32 <= c as int <= 126 }

  predicate AllPrintable(s: seq<Char8>) {
    forall k :: 0 <= k < |s| ==> IsPrintable(s[k])
  }

  /** None of the keys from `lo` up to `hi` is a carriage return or newline. */
  predicate NoNewlineIn(keys: seq<Char8>, lo: int, hi: int)
    requires 0 <= lo && hi <= |keys|
  {
    forall k :: lo <= k < hi ==> !IsNewline(keys[k])
  }

  /** One key applied to the line buffer: erase drops the last character (if any), a printable key is appended, anything else is ignored. */
  function Edit(line: seq<Char8>, c: Char8): seq<Char8>
  {
    if IsErase(c) then (if |line| > 0 then line[..|line| - 1] else line)
    else if IsPrintable(c) then line + [c]
    else line
  }

  /**
   What the first `n` keys leave in an unbounded line buffer, defined from
   the last of them backwards.
   */
  function Typed(keys: seq<Char8>, n: nat): (line: seq<Char8>)
    requires n <= |keys|
  {
    if n == 0 then [] else Edit(Typed(keys, n - 1), keys[n - 1])
  }

  /** Only printable characters ever reach the line. */
  lemma {:induction false} TypedPrintable(keys: seq<Char8>, n: nat)
    requires n <= |keys|
    ensures AllPrintable(Typed(keys, n))
  {
    if n > 0 {
      TypedPrintable(keys, n - 1);
      var before := Typed(keys, n - 1);
      assert forall k :: 0 <= k < |before| - 1 ==> before[..|before| - 1][k] == before[k];
    }
  }

  /** A line read: its characters, how many keys were consumed, and whether a newline ended it. */
  datatype LineRead = LineRead(line: seq<Char8>, used: nat, ended: bool)

  /**
   The loop of shell_read_line from key `i` with `buf` typed so far: it
   stops when the buffer holds `maxLen - 1` characters, or at a carriage
   return or newline (consumed). When the keys run out first, `getc` would
   block: None. Whatever it returns is what the keys before the stop leave
   in an unbounded buffer.
   */
  function ReadFrom(keys: seq<Char8>, i: nat, buf: seq<Char8>, maxLen: int): (r: Option<LineRead>)
    requires i <= |keys| && buf == Typed(keys, i) && NoNewlineIn(keys, 0, i)
    requires |buf| <= maxLen - 1 || buf == []
    ensures r.Some? ==> i <= r.value.used <= |keys|
    ensures r.Some? && r.value.ended ==>
      (r.value.used > 0 && IsNewline(keys[r.value.used - 1]) && NoNewlineIn(keys, 0, r.value.used - 1)
       && r.value.line == Typed(keys, r.value.used - 1))
    ensures r.Some? && !r.value.ended ==>
      (NoNewlineIn(keys, 0, r.value.used) && r.value.line == Typed(keys, r.value.used)
       && |r.value.line| >= maxLen - 1)
    ensures r.Some? ==> (|r.value.line| <= maxLen - 1 || r.value.line == [])
    ensures r.None? ==> NoNewlineIn(keys, i, |keys|)
    decreases |keys| - i
  {
    if !(|buf| < maxLen - 1) then Some(LineRead(buf, i, false))
    else if i == |keys| then None
    else
      var c := keys[i];
      if IsNewline(c) then Some(LineRead(buf, i + 1, true))
      else
        KeyTyped(keys, i);
        ReadFrom(keys, i + 1, Edit(buf, c), maxLen)
  }

  /** One more key that is not a newline: the typed line grows by it and the newline-free stretch by one. */
  lemma KeyTyped(keys: seq<Char8>, i: nat)
    requires i < |keys| && NoNewlineIn(keys, 0, i) && !IsNewline(keys[i])
    ensures NoNewlineIn(keys, 0, i + 1)
    ensures NoNewlineIn(keys, i + 1, |keys|) ==> NoNewlineIn(keys, i, |keys|)
    ensures Typed(keys, i + 1) == Edit(Typed(keys, i), keys[i])
  {
  }

  /**
   shell_read_line into a buffer of `maxLen` bytes: the line holds only
   printable characters, at most `maxLen - 1` of them, and is what the keys
   before the newline (or before the buffer filled) leave after editing.
   */
  function ReadLine(keys: seq<Char8>, maxLen: int): (r: Option<LineRead>)
    ensures r.Some? ==> AllPrintable(r.value.line) && (|r.value.line| <= maxLen - 1 || r.value.line == [])
    ensures r.Some? && r.value.ended ==>
      (0 < r.value.used <= |keys| && IsNewline(keys[r.value.used - 1]) && NoNewlineIn(keys, 0, r.value.used - 1)
       && r.value.line == Typed(keys, r.value.used - 1))
    ensures r.Some? && !r.value.ended ==>
      (r.value.used <= |keys| && NoNewlineIn(keys, 0, r.value.used) && r.value.line == Typed(keys, r.value.used))
    ensures r.None? <==> NoNewlineIn(keys, 0, |keys|) && NeverFull(keys, maxLen)
  {
    var r := ReadFrom(keys, 0, [], maxLen);
    assert r.Some? ==> AllPrintable(r.value.line) by {
      if r.Some? {
        TypedPrintable(keys, if r.value.ended then r.value.used - 1 else r.value.used);
      }
    }
    assert r.None? ==> NeverFull(keys, maxLen) by {
      if r.None? { NoneMeansShort(keys, 0, [], maxLen); }
    }
    assert r.Some? ==> !NoNewlineIn(keys, 0, |keys|) || !NeverFull(keys, maxLen) by {
      if r.Some? { SomeMeansStop(keys, 0, [], maxLen); }
    }
    r
  }

  /** No prefix of the keys leaves `maxLen - 1` or more characters. */
  predicate NeverFull(keys: seq<Char8>, maxLen: int) {
    forall n :: 0 <= n <= |keys| ==> |Typed(keys, n)| < maxLen - 1
  }

  /** Reading runs out of keys only if no prefix ever filled the buffer. */
  lemma {:induction false} NoneMeansShort(keys: seq<Char8>, i: nat, buf: seq<Char8>, maxLen: int)
    requires i <= |keys| && buf == Typed(keys, i) && NoNewlineIn(keys, 0, i)
    requires |buf| <= maxLen - 1 || buf == []
    requires ReadFrom(keys, i, buf, maxLen).None?
    ensures forall n :: i <= n <= |keys| ==> |Typed(keys, n)| < maxLen - 1
    decreases |keys| - i
  {
    if i < |keys| {
      NoneMeansShort(keys, i + 1, Edit(buf, keys[i]), maxLen);
    }
  }

  /** Reading returns only if a newline came or some prefix filled the buffer. */
  lemma {:induction false} SomeMeansStop(keys: seq<Char8>, i: nat, buf: seq<Char8>, maxLen: int)
    requires i <= |keys| && buf == Typed(keys, i) && NoNewlineIn(keys, 0, i)
    requires |buf| <= maxLen - 1 || buf == []
    requires ReadFrom(keys, i, buf, maxLen).Some?
    ensures !NoNewlineIn(keys, i, |keys|) || exists n :: i <= n <= |keys| && |Typed(keys, n)| >= maxLen - 1
    decreases |keys| - i
  {
    if |buf| < maxLen - 1 && !IsNewline(keys[i]) {
      SomeMeansStop(keys, i + 1, Edit(buf, keys[i]), maxLen);
    }
  }

  /** A line typed without mistakes and ended by a newline is read back exactly. */
  lemma ReadsTypedLine(text: seq<Char8>, maxLen: int)
    requires AllPrintable(text) && |text| < maxLen - 1
    ensures ReadLine(text + ['\n'], maxLen) == Some(LineRead(text, |text| + 1, true))
  {
    var keys := text + ['\n'];
    assert text[..0] == [];
    ReadPrintableFrom(text, keys, 0, maxLen);
  }

  lemma {:induction false} ReadPrintableFrom(text: seq<Char8>, keys: seq<Char8>, i: nat, maxLen: int)
    requires AllPrintable(text) && |text| < maxLen - 1 && i <= |text|
    requires keys == text + ['\n']
    requires text[..i] == Typed(keys, i) && NoNewlineIn(keys, 0, i)
    ensures ReadFrom(keys, i, text[..i], maxLen) == Some(LineRead(text, |text| + 1, true))
    decreases |text| - i
  {
    if i == |text| {
      assert text[..i] == text;
    } else {
      assert keys[i] == text[i] && IsPrintable(text[i]);
      Snoc(text, i);
      ReadStep(keys, i, text[..i], maxLen);
      ReadPrintableFrom(text, keys, i + 1, maxLen);
    }
  }

  /** A key that is not a newline, read while the buffer has room, is applied and reading goes on. */
  lemma ReadStep(keys: seq<Char8>, i: nat, buf: seq<Char8>, maxLen: int)
    requires i < |keys| && buf == Typed(keys, i) && NoNewlineIn(keys, 0, i)
    requires |buf| < maxLen - 1 && !IsNewline(keys[i])
    ensures Edit(buf, keys[i]) == Typed(keys, i + 1) && NoNewlineIn(keys, 0, i + 1)
    ensures |Edit(buf, keys[i])| <= maxLen - 1
    ensures ReadFrom(keys, i, buf, maxLen) == ReadFrom(keys, i + 1, Edit(buf, keys[i]), maxLen)
  {
  }

  /** Typing an erase key right after a printable character takes it back. */
  lemma EraseUndoes(keys: seq<Char8>, n: nat)
    requires n + 2 <= |keys| && IsPrintable(keys[n]) && IsErase(keys[n + 1])
    ensures Typed(keys, n + 2) == Typed(keys, n)
  {
    var before := Typed(keys, n);
    assert (before + [keys[n]])[..|before|] == before;
  }

  // ---------------------------------------------------------------------
  // shell_parse_args
  // ---------------------------------------------------------------------

  predicate IsSpace(c: Char8) { c == ' ' || c == '\t' }

  /** The first position at or after `i` that is not a space or tab. */
  function SkipSpaces(s: seq<Char8>, i: nat): (j: nat)
    requires i <= |s|
    ensures i <= j <= |s| && (j < |s| ==> !IsSpace(s[j]))
    ensures forall k :: i <= k < j ==> IsSpace(s[k])
    decreases |s| - i
  {
    if i < |s| && IsSpace(s[i]) then SkipSpaces(s, i + 1) else i
  }

  /** The first position at or after `i` that is a space or tab, or the end. */
  function TokenEnd(s: seq<Char8>, i: nat): (j: nat)
    requires i <= |s|
    ensures i <= j <= |s| && (j < |s| ==> IsSpace(s[j]))
    ensures forall k :: i <= k < j ==> !IsSpace(s[k])
    decreases |s| - i
  {
    if i < |s| && !IsSpace(s[i]) then TokenEnd(s, i + 1) else i
  }

  predicate IsWord(w: seq<Char8>) {
    |w| > 0 && forall k :: 0 <= k < |w| ==> !IsSpace(w[k])
  }

  predicate AllWords(ws: seq<seq<Char8>>) {
    forall a :: 0 <= a < |ws| ==> IsWord(ws[a])
  }

  /**
   The loop of shell_parse_args from position `i` with `args` found so far:
   while the line goes on and fewer than `maxArgs - 1` arguments were
   found, skip blanks and take the next run of non-blanks, cutting the line
   after it.
   */
  function ParseFrom(line: seq<Char8>, i: nat, maxArgs: int, args: seq<seq<Char8>>): (r: seq<seq<Char8>>)
    requires i <= |line|
    requires AllWords(args)
    ensures |args| <= |r| && r[..|args|] == args
    ensures |r| > |args| ==> |r| <= maxArgs - 1
    ensures AllWords(r)
    decreases |line| - i
  {
    if i == |line| || |args| >= maxArgs - 1 then args
    else
      var j := SkipSpaces(line, i);
      if j == |line| then args
      else
        var k := TokenEnd(line, j);
        var args' := args + [line[j..k]];
        assert args'[..|args|] == args;
        var r := ParseFrom(line, if k < |line| then k + 1 else k, maxArgs, args');
        assert r[..|args|] == r[..|args'|][..|args|];
        r
  }

  /** shell_parse_args: the arguments found (the NULL after them is implicit). */
  function ParseArgs(line: seq<Char8>, maxArgs: int): (args: seq<seq<Char8>>)
    ensures |args| <= if maxArgs >= 1 then maxArgs - 1 else 0
    ensures AllWords(args)
  {
    ParseFrom(line, 0, maxArgs, [])
  }

  /** Words joined by single spaces: the line a user types for them. */
  function Join(ws: seq<seq<Char8>>): (s: seq<Char8>)
  {
    if |ws| == 0 then []
    else if |ws| == 1 then ws[0]
    else ws[0] + [' '] + Join(ws[1..])
  }

  /** Splitting the joined words gives the words back, when there are fewer than `maxArgs`. */
  lemma ParseJoin(ws: seq<seq<Char8>>, maxArgs: int)
    requires AllWords(ws)
    requires |ws| <= maxArgs - 1
    ensures ParseArgs(Join(ws), maxArgs) == ws
  {
    var line := Join(ws);
    assert line[0..] == line;
    ParseJoinFrom(line, 0, ws, maxArgs, []);
    assert [] + ws == ws;
  }

  lemma {:induction false} ParseJoinFrom(line: seq<Char8>, i: nat, ws: seq<seq<Char8>>, maxArgs: int, args: seq<seq<Char8>>)
    requires i <= |line| && line[i..] == Join(ws)
    requires AllWords(ws)
    requires AllWords(args)
    requires |args| + |ws| <= maxArgs - 1
    ensures ParseFrom(line, i, maxArgs, args) == args + ws
    decreases |ws|
  {
    if |ws| == 0 {
      assert i == |line|;
      assert ParseFrom(line, i, maxArgs, args) == args;
      assert args + ws == args;
    } else {
      var w := ws[0];
      JoinShape(line, i, ws);
      if |ws| == 1 {
        ParseJoinLast(line, i, w, maxArgs, args);
        assert ws == [w];
      } else {
        var k := i + |w| + 1;
        ParseStep(line, i, maxArgs, args, w, k);
        assert AllWords(args + [w]) && AllWords(ws[1..]);
        ParseJoinFrom(line, k, ws[1..], maxArgs, args + [w]);
        MoveHead(args, ws);
      }
    }
  }

  /** The last word runs to the end of the line and is the last argument. */
  lemma ParseJoinLast(line: seq<Char8>, i: nat, w: seq<Char8>, maxArgs: int, args: seq<seq<Char8>>)
    requires IsWord(w) && i + |w| == |line| && line[i..] == w
    requires AllWords(args) && |args| < maxArgs - 1
    ensures ParseFrom(line, i, maxArgs, args) == args + [w]
  {
    ParseStep(line, i, maxArgs, args, w, |line|);
    assert AllWords(args + [w]);
  }

  /** Where the joined words start at `i`, the first word is there, followed by a space and the rest when there is more. */
  lemma JoinShape(line: seq<Char8>, i: nat, ws: seq<seq<Char8>>)
    requires |ws| > 0 && i <= |line| && line[i..] == Join(ws)
    ensures i + |ws[0]| <= |line| && line[i..i + |ws[0]|] == ws[0]
    ensures |ws| == 1 ==> i + |ws[0]| == |line|
    ensures |ws| > 1 ==> i + |ws[0]| < |line| && line[i + |ws[0]|] == ' ' && line[i + |ws[0]| + 1..] == Join(ws[1..])
  {
    var w := ws[0];
    var rest := line[i..];
    if |ws| > 1 {
      assert rest == w + [' '] + Join(ws[1..]);
      assert line[i + |w| + 1..] == rest[|w| + 1..];
      assert rest[|w| + 1..] == Join(ws[1..]);
      assert line[i + |w|] == rest[|w|];
    }
    assert line[i..i + |w|] == rest[..|w|];
  }

  /** One round of the parsing loop takes the word at `i` and moves past the blank after it. */
  lemma ParseStep(line: seq<Char8>, i: nat, maxArgs: int, args: seq<seq<Char8>>, w: seq<Char8>, next: nat)
    requires IsWord(w) && i + |w| <= |line| && line[i..i + |w|] == w
    requires i + |w| < |line| ==> IsSpace(line[i + |w|])
    requires next == if i + |w| < |line| then i + |w| + 1 else i + |w|
    requires AllWords(args)
    requires |args| < maxArgs - 1
    ensures ParseFrom(line, i, maxArgs, args) == ParseFrom(line, next, maxArgs, args + [w])
  {
    WordSpan(line, i, w);
  }

  /** A word starting at `i` is skipped to at once and ends where it ends. */
  lemma WordSpan(line: seq<Char8>, i: nat, w: seq<Char8>)
    requires IsWord(w) && i + |w| <= |line| && line[i..i + |w|] == w
    requires i + |w| < |line| ==> IsSpace(line[i + |w|])
    ensures SkipSpaces(line, i) == i && TokenEnd(line, i) == i + |w|
  {
    assert line[i] == w[0];
    TokenEndAt(line, i, i + |w|);
  }

  lemma {:induction false} TokenEndAt(line: seq<Char8>, i: nat, e: nat)
    requires i <= e <= |line| && (e < |line| ==> IsSpace(line[e]))
    requires forall k :: i <= k < e ==> !IsSpace(line[k])
    ensures TokenEnd(line, i) == e
    decreases e - i
  {
    if i < e {
      TokenEndAt(line, i + 1, e);
    }
  }

  lemma MoveHead<T>(a: seq<T>, b: seq<T>)
    requires |b| > 0
    ensures (a + [b[0]]) + b[1..] == a + b
  {
  }

  lemma Snoc<T>(s: seq<T>, i: nat)
    requires i < |s|
    ensures s[..i + 1] == s[..i] + [s[i]]
  {
  }

  // ---------------------------------------------------------------------
  // Paths
  // ---------------------------------------------------------------------

  predicate Absolute(p: seq<Char8>) { |p| > 0 && p[0] == '/' }

  /** normalize_path: one trailing slash goes, unless the path is a single character. */
  function NormalizePath(p: seq<Char8>): (r: seq<Char8>)
    ensures r == p || (p == r + ['/'] && |r| >= 1)
    ensures |p| > 1 && p[|p| - 1] == '/' ==> r != p
    ensures Absolute(p) ==> Absolute(r)
  {
    if |p| > 1 && p[|p| - 1] == '/' then p[..|p| - 1] else p
  }

  /** A path with no trailing slash, or the root, is left alone. */
  lemma NormalizeClean(p: seq<Char8>)
    requires |p| <= 1 || p[|p| - 1] != '/'
    ensures NormalizePath(p) == p
  {
  }

  /** my_snprintf into a buffer of `size` bytes keeps the first `size - 1` characters. */
  function Truncate(s: seq<Char8>, size: nat): (r: seq<Char8>)
    requires size > 0
    ensures |r| == Min(|s|, size - 1) && r == s[..|r|]
  {
    if |s| < size then s else s[..size - 1]
  }

  /**
   resolve_path: an input starting with '/' is copied; otherwise it is
   appended to the current directory with one '/' between (just '/' before
   it at the root), cut to MAX_PATH_LEN - 1 characters. Either way one
   trailing slash is then removed.
   */
  function ResolvePath(input: seq<Char8>, cwd: seq<Char8>): (r: seq<Char8>)
    ensures Absolute(input) ==> r == NormalizePath(input)
    ensures !Absolute(input) && Absolute(cwd) ==> Absolute(r) && |r| <= MaxPathLen - 1
  {
    if Absolute(input) then NormalizePath(input)
    else if cwd == ['/'] then NormalizePath(Truncate(['/'] + input, MaxPathLen))
    else NormalizePath(Truncate(cwd + ['/'] + input, MaxPathLen))
  }

  /**
   The parent directory of shell_cmd_cd: None at the root ("Already at root
   directory"); otherwise the path is cut at its last '/', or becomes '/'
   when that slash is the first character (or there is none).
   */
  function Parent(cwd: seq<Char8>): (r: Option<seq<Char8>>)
    ensures r.None? <==> cwd == ['/']
    ensures r.Some? ==> (r.value == ['/'] || (r.value < cwd && '/' !in cwd[|r.value| + 1..] && cwd[|r.value|] == '/'))
    ensures r.Some? && Absolute(cwd) ==> Absolute(r.value)
  {
    if cwd == ['/'] then None
    else
      var i := LastIndex(cwd, '/');
      if i > 0 then Some(cwd[..i]) else Some(['/'])
  }

  predicate NoSlash(name: seq<Char8>) {
    forall k :: 0 <= k < |name| ==> name[k] != '/'
  }

  /**
   `cd name` then `cd ..` comes back: from an absolute directory with no
   trailing slash, entering a child named without slashes and taking its
   parent gives the directory again (when the joined path fits).
   */
  lemma ChildThenParent(cwd: seq<Char8>, name: seq<Char8>)
    requires Absolute(cwd) && (cwd == ['/'] || cwd[|cwd| - 1] != '/')
    requires |name| > 0 && NoSlash(name) && |cwd| + 1 + |name| < MaxPathLen
    ensures Parent(ResolvePath(name, cwd)) == Some(cwd)
  {
    if cwd == ['/'] {
      var p := ['/'] + name;
      assert ResolvePath(name, cwd) == p;
      LastSlashAt(p, 0);
    } else {
      var p := cwd + ['/'] + name;
      assert p[..|cwd|] == cwd;
      assert ResolvePath(name, cwd) == p;
      LastSlashAt(p, |cwd|);
    }
  }

  /** The last slash of a path is at `i` when none follows it. */
  lemma LastSlashAt(p: seq<Char8>, i: nat)
    requires i < |p| && p[i] == '/' && NoSlash(p[i + 1..])
    ensures LastIndex(p, '/') == i
  {
    forall j | i < j < |p|
      ensures p[j] != '/'
    {
      assert p[i + 1..][j - i - 1] == p[j];
    }
  }

  /**
   shell_cmd_cd: no argument goes to '/'; `..` goes to the parent (nothing
   happens at the root); anything else is resolved against the current
   directory. The directory changes only when the target is '/' or the file
   system reports a directory there.
   */
  function Cd(cwd: seq<Char8>, args: seq<seq<Char8>>, isDir: seq<Char8> -> bool): (r: seq<Char8>)
    ensures r == cwd || r == ['/'] || isDir(r)
    ensures |args| < 2 ==> r == ['/']
  {
    var target :=
      if |args| < 2 then Some(['/'])
      else if args[1] == ['.', '.'] then Parent(cwd)
      else Some(ResolvePath(args[1], cwd));
    match target
    case None => cwd
    case Some(t) => if t == ['/'] || isDir(t) then t else cwd
  }

  /** The current directory stays absolute. */
  lemma CdKeepsAbsolute(cwd: seq<Char8>, args: seq<seq<Char8>>, isDir: seq<Char8> -> bool)
    requires Absolute(cwd)
    ensures Absolute(Cd(cwd, args, isDir))
  {
  }
}
