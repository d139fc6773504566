/**
 The copyright-header tool (scripts/add_file_headers.py): which template a
 file gets, what the header says, whether a file already carries one, and
 how the header is put in front of the file's text, after a shebang line
 for Python and shell scripts. File contents are the decoded text, or None
 when the bytes are not UTF-8; reading, writing and walking directories
 are left out.
 */
module FileHeaders {
  import opened Util

  // ---------------------------------------------------------------------
  // Templates and their lookup
  // ---------------------------------------------------------------------

  datatype Template = CHeader | AsmHeader | ShellHeader | PythonHeader | MakefileHeader

  /** HEADER_TEMPLATES: extensions (with their dot) and two exact file names. */
  function KeyTemplate(key: string): Option<Template> {
    if key == ".c" || key == ".h" || key == ".cpp" || key == ".hpp" || key == ".cc" then Some(CHeader)
    else if key == ".S" || key == ".s" || key == ".asm" then Some(AsmHeader)
    else if key == ".sh" then Some(ShellHeader)
    else if key == ".py" then Some(PythonHeader)
    else if key == "Makefile" || key == "makefile" then Some(MakefileHeader)
    else None
  }

  /** os.path.basename: the text after the last '/'. */
  function BaseName(path: string): (name: string)
    ensures '/' !in name && EndsWith(path, name)
    ensures |name| < |path| ==> path[|path| - |name| - 1] == '/'
  {
    var i := LastIndex(path, '/');
    assert path[|path| - |path[i + 1..]|..] == path[i + 1..];
    path[i + 1..]
  }

  /** PurePath.suffix on a final component: from its last '.', unless that dot is first or last. */
  function Suffix(name: string): (ext: string)
    ensures ext == "" || (|ext| >= 2 && ext[0] == '.' && '.' !in ext[1..] && EndsWith(name, ext) && |ext| < |name|)
  {
    var i := LastIndex(name, '.');
    if 0 < i < |name| - 1 then
      assert name[|name| - |name[i..]|..] == name[i..];
      name[i..]
    else ""
  }

  /** str.lower on ASCII letters. */
  function LowerChar(c: char): char {
    if 'A' <= c <= 'Z' then (c as int + 32) as char else c
  }

  function Lower(s: string): (r: string)
    ensures |r| == |s| && forall k :: 0 <= k < |s| ==> r[k] == LowerChar(s[k])
  {
    seq(|s|, k requires 0 <= k < |s| => LowerChar(s[k]))
  }

  /** get_header_for_file's choice: the file name as a key wins, then the lower-cased extension. */
  function TemplateFor(path: string): Option<Template> {
    var name := BaseName(path);
    if KeyTemplate(name).Some? then KeyTemplate(name)
    else KeyTemplate(Lower(Suffix(name)))
  }

  // ---------------------------------------------------------------------
  // Header text
  // ---------------------------------------------------------------------

  /** The notice every template carries: both phrases has_copyright_header looks for. */
  const Notice := "Copyright (c) 2024 Avatar Project"

  /** The first comment line, carrying the notice after the mark `m`. */
  function NoticeLine(m: string): (l: string)
    ensures OccursAt(l, Notice, |m| + 1)
  {
    OccursMid(m + " ", Notice, "\n");
    m + " " + Notice + "\n"
  }

  /** The comment lines after the notice, each starting with the mark `m`. */
  function MoreLines(m: string, filename: string, brief: string): seq<string> {
    [ m + "\n",
      m + " Licensed under the MIT License.\n",
      m + " See LICENSE file in the project root for full license information.\n",
      m + "\n",
      m + " @file " + filename + "\n",
      m + " @brief " + brief + "\n",
      m + " @author Avatar Project Team\n",
      m + " @date 2024\n" ]
  }

  /** Lines joined end to end. */
  function Concat(lines: seq<string>): string {
    if |lines| == 0 then "" else lines[0] + Concat(lines[1..])
  }

  /** The first line of a script template, which a kept shebang replaces. */
  function Lead(t: Template): string {
    match t
    case ShellHeader => "#!/bin/bash\n"
    case PythonHeader => "#!/usr/bin/env python3\n"
    case _ => ""
  }

  /** Where the notice starts in a template's text after its lead. */
  function NoticeAt(t: Template): nat {
    |Opening(t)| + |Mark(t)| + 1
  }

  /** The line opening a template's comment block. */
  function Opening(t: Template): string {
    match t
    case CHeader | AsmHeader => "/*\n"
    case _ => "#\n"
  }

  /** The mark starting each line inside the block. */
  function Mark(t: Template): string {
    match t
    case CHeader | AsmHeader => " *"
    case _ => "#"
  }

  /** The text closing the block, with the blank line after it. */
  function Closing(t: Template): string {
    match t
    case CHeader | AsmHeader => " */\n\n"
    case _ => "#\n\n"
  }

  /** A template's comment block: C-style for C and assembly, '#' lines otherwise. */
  function Body(t: Template, filename: string, brief: string): (b: string)
    ensures OccursAt(b, Notice, NoticeAt(t))
  {
    Block(Opening(t), Mark(t), Closing(t), filename, brief)
  }

  /** A comment block opened by `open`, each line marked with `m`, closed by `close`. */
  function Block(open: string, m: string, close: string, filename: string, brief: string): (b: string)
    ensures OccursAt(b, Notice, |open| + |m| + 1)
  {
    var rest := Concat(MoreLines(m, filename, brief) + [close]);
    OccursShift(open, NoticeLine(m), rest, Notice, |m| + 1);
    open + NoticeLine(m) + rest
  }

  /** The default @brief text when none is given. */
  function DefaultBrief(t: Template, filename: string): string {
    match t
    case CHeader => "Implementation of " + filename
    case AsmHeader => "Assembly implementation of " + filename
    case ShellHeader => "Shell script: " + filename
    case PythonHeader => "Python script: " + filename
    case MakefileHeader => "Build configuration: " + filename
  }

  /** get_c_header, get_asm_header, get_shell_header, get_python_header, get_makefile_header. */
  function Header(t: Template, filename: string, brief: string): (h: string)
    ensures StartsWith(h, Lead(t)) && h[|Lead(t)|..] == Body(t, filename, if brief == "" then DefaultBrief(t, filename) else brief)
  {
    var b := Body(t, filename, if brief == "" then DefaultBrief(t, filename) else brief);
    assert (Lead(t) + b)[|Lead(t)|..] == b;
    Lead(t) + b
  }

  /** get_header_for_file: the header for the file's template, named after its base name. */
  function HeaderFor(path: string, brief: string): (h: Option<string>)
    ensures h.Some? <==> TemplateFor(path).Some?
    ensures h.Some? ==> h.value == Header(TemplateFor(path).value, BaseName(path), brief)
  {
    match TemplateFor(path)
    case None => None
    case Some(t) => Some(Header(t, BaseName(path), brief))
  }

  lemma OccursMid(x: string, t: string, y: string)
    ensures OccursAt(x + t + y, t, |x|)
  {
    assert (x + t + y)[|x|..|x| + |t|] == t;
  }

  // ---------------------------------------------------------------------
  // has_copyright_header
  // ---------------------------------------------------------------------

  /** How much of the file the check looks at. */
  const Window := 1000

  /** Both "Copyright" and "Avatar Project" appear in the first 1000 characters. */
  function HasCopyrightHeader(content: string): bool {
    var w := content[..Min(Window, |content|)];
    HasSubstring(w, "Copyright") && HasSubstring(w, "Avatar Project")
  }

  /** The notice ending within the first 1000 characters is enough for the check. */
  lemma NoticeSeen(s: string, i: nat)
    requires OccursAt(s, Notice, i) && i + |Notice| <= Window
    ensures HasCopyrightHeader(s)
  {
    var w := s[..Min(Window, |s|)];
    assert w[i..i + 9] == s[i..i + |Notice|][..9] == "Copyright";
    assert OccursAt(w, "Copyright", i);
    assert w[i + 19..i + 33] == s[i..i + |Notice|][19..] == "Avatar Project";
    assert OccursAt(w, "Avatar Project", i + 19);
  }

  // ---------------------------------------------------------------------
  // process_file
  // ---------------------------------------------------------------------

  /** The text of `content` up to its first newline. */
  function FirstLineEnd(content: string): (k: nat)
    requires '\n' in content
    ensures k < |content| && content[k] == '\n' && '\n' !in content[..k]
  {
    IndexOf(content, '\n')
  }

  /** The case in which the script's own shebang line stays first. */
  predicate KeepsShebang(path: string, content: string) {
    StartsWith(content, "#!") && '\n' in content && (EndsWith(path, ".py") || EndsWith(path, ".sh"))
  }

  /** Python's `s[n:]`: empty when `s` is shorter. */
  function Drop(s: string, n: nat): (r: string)
    ensures |r| <= |s|
  {
    if n <= |s| then s[n..] else ""
  }

  /**
   The new text: for a `.py` or `.sh` path whose content starts with a
   shebang and has a second line, the first line, then the header with its
   own first line cut off, then the rest; otherwise header then content.
   */
  function WithHeader(path: string, content: string, header: string): string {
    if StartsWith(content, "#!") && '\n' in content then
      var k := FirstLineEnd(content);
      var line0 := content[..k];
      var rest := content[k + 1..];
      if EndsWith(path, ".py") then line0 + "\n" + Drop(header, |"#!/usr/bin/env python3\n"|) + rest
      else if EndsWith(path, ".sh") then line0 + "\n" + Drop(header, |"#!/bin/bash\n"|) + rest
      else header + content
    else header + content
  }

  /** Where WithHeader puts the text it inserts. */
  function InsertPoint(path: string, content: string): (p: nat)
    ensures p <= |content|
  {
    if KeepsShebang(path, content) then FirstLineEnd(content) + 1 else 0
  }

  /** Inserting the header changes nothing else: cutting the inserted text out gives the content back. */
  lemma InsertionOnly(path: string, content: string, header: string)
    ensures var n := WithHeader(path, content, header);
      var p := InsertPoint(path, content);
      |n| >= |content| && n[..p] + n[p + (|n| - |content|)..] == content
      && EndsWith(header, n[p..p + (|n| - |content|)])
  {
    var n := WithHeader(path, content, header);
    if KeepsShebang(path, content) {
      var k := FirstLineEnd(content);
      KeptSplice(path, content, header);
      DropIsSuffix(header, ShebangCut(path));
      assert content[..k + 1] + content[k + 1..] == content;
      CutMiddle(n, content[..k + 1], Drop(header, ShebangCut(path)), content[k + 1..], content, header);
    } else {
      assert n == "" + header + content;
      assert EndsWith(header, header);
      CutMiddle(n, "", header, content, content, header);
    }
  }

  /** Cutting the middle part out of a three-way concatenation leaves the outer two. */
  lemma CutMiddle(n: string, x: string, h: string, z: string, content: string, header: string)
    requires n == x + h + z && content == x + z && EndsWith(header, h)
    ensures |n| >= |content| && n[..|x|] + n[|x| + (|n| - |content|)..] == content
      && EndsWith(header, n[|x|..|x| + (|n| - |content|)])
  {
    assert n[..|x|] == x;
    assert n[|x| + |h|..] == z;
    assert n[|x|..|x| + |h|] == h;
  }

  lemma DropIsSuffix(s: string, n: nat)
    ensures EndsWith(s, Drop(s, n))
  {
  }

  /** What process_file reports; Added carries the text written back. */
  datatype Outcome = Binary | HasHeader | NoTemplate | WouldAdd | Added(text: string)

  /**
   process_file on a file with decoded text `content` (None when it is not
   UTF-8). A file with a header is left alone unless forced; a file with no
   template is left alone; a dry run only reports.
   */
  function Process(path: string, content: Option<string>, dryRun: bool, force: bool): (r: Outcome)
    ensures r == Binary <==> content.None?
    ensures r == HasHeader <==> content.Some? && HasCopyrightHeader(content.value) && !force
    ensures r == NoTemplate <==> (content.Some? && !(HasCopyrightHeader(content.value) && !force)
      && TemplateFor(path).None?)
    ensures r == WouldAdd ==> dryRun
    ensures r.Added? ==> !dryRun && r.text == WithHeader(path, content.value, HeaderFor(path, "").value)
  {
    match content
    case None => Binary
    case Some(c) =>
      if HasCopyrightHeader(c) && !force then HasHeader
      else match HeaderFor(path, "")
        case None => NoTemplate
        case Some(h) => if dryRun then WouldAdd else Added(WithHeader(path, c, h))
  }

  /** The file's text after process_file: only Added writes. */
  function After(content: string, r: Outcome): string {
    if r.Added? then r.text else content
  }

  /** A file that already has a header is left exactly as it was unless forced. */
  lemma HeaderedFileUnchanged(path: string, content: string, dryRun: bool)
    requires HasCopyrightHeader(content)
    ensures Process(path, Some(content), dryRun, false) == HasHeader
    ensures After(content, Process(path, Some(content), dryRun, false)) == content
  {
  }

  /** Forcing adds a second header in front of (or after the shebang of) one already there. */
  lemma ForceAddsAgain(path: string, content: string)
    requires HasCopyrightHeader(content) && TemplateFor(path).Some?
    ensures Process(path, Some(content), false, true).Added?
  {
  }

  // ---------------------------------------------------------------------
  // Properties of the template choice
  // ---------------------------------------------------------------------

  /** The last '/' of `dir + "/" + name` is the one added, when `name` has none. */
  lemma BaseNameOfJoin(dir: string, name: string)
    requires '/' !in name
    ensures BaseName(dir + "/" + name) == name
  {
    var p := dir + "/" + name;
    var i := LastIndex(p, '/');
    assert p[|dir|] == '/';
    assert forall j :: |dir| < j < |p| ==> p[j] == name[j - |dir| - 1];
    assert i == |dir|;
    assert p[i + 1..] == name;
  }

  /** The directories in a path play no part in the choice. */
  lemma DirectoryIgnored(dir: string, name: string)
    requires '/' !in name
    ensures TemplateFor(dir + "/" + name) == TemplateFor(name)
  {
    BaseNameOfJoin(dir, name);
    LastAbsent(name, '/');
    assert BaseName(name) == name;
    SameBaseName(dir + "/" + name, name);
  }

  /** The choice depends on the base name alone. */
  lemma SameBaseName(p: string, q: string)
    requires BaseName(p) == BaseName(q)
    ensures TemplateFor(p) == TemplateFor(q)
  {
  }

  lemma LastAbsent(s: string, x: char)
    requires x !in s
    ensures LastIndex(s, x) == -1
  {
  }

  /** A file whose name is a key gets that key's template, whatever its directory: Makefile and makefile among them. */
  lemma ByName(dir: string, name: string)
    requires '/' !in name && KeyTemplate(name).Some?
    ensures TemplateFor(dir + "/" + name) == KeyTemplate(name)
  {
    BaseNameOfJoin(dir, name);
  }

  lemma MakefileKeys()
    ensures KeyTemplate("Makefile") == Some(MakefileHeader) && KeyTemplate("makefile") == Some(MakefileHeader)
  {
  }

  /** A name ending in a dotted extension has that extension as its suffix, unless the name is only the extension. */
  lemma SuffixOfExtension(name: string, ext: string)
    requires EndsWith(name, ext) && |ext| >= 2 && ext[0] == '.' && '.' !in ext[1..]
    ensures |name| > |ext| ==> Suffix(name) == ext
    ensures |name| == |ext| ==> Suffix(name) == ""
  {
    var j := |name| - |ext|;
    var i := LastIndex(name, '.');
    assert name[j] == ext[0];
    assert forall m :: j < m < |name| ==> name[m] == ext[1..][m - j - 1];
    assert i == j;
    assert name[i..] == ext;
  }

  /** A name that is not itself a key gets the template of its lower-cased extension. */
  lemma ByExtension(stem: string, ext: string)
    requires |stem| > 0 && '/' !in stem + ext
    requires |ext| >= 2 && ext[0] == '.' && '.' !in ext[1..]
    requires KeyTemplate(stem + ext).None?
    ensures TemplateFor(stem + ext) == KeyTemplate(Lower(ext))
  {
    var name := stem + ext;
    LastAbsent(name, '/');
    assert BaseName(name) == name;
    assert EndsWith(name, ext) by { assert name[|name| - |ext|..] == ext; }
    SuffixOfExtension(name, ext);
  }

  /** A name with no dot other than the two Makefile spellings gets no template. */
  lemma UnknownHasNone(name: string)
    requires '/' !in name && '.' !in name && name != "Makefile" && name != "makefile"
    ensures TemplateFor(name) == None
  {
    LastAbsent(name, '/');
    LastAbsent(name, '.');
    assert BaseName(name) == name;
    assert Suffix(name) == "";
    assert name !in [".c", ".h", ".cpp", ".hpp", ".cc"] && name !in [".S", ".s", ".asm"];
  }

  /** A path ending in ".py" always gets the Python template. */
  lemma PyIsPython(path: string)
    requires EndsWith(path, ".py")
    ensures TemplateFor(path) == Some(PythonHeader)
  {
    LongerNotKeyByEnding(".py");
    ByExtensionKey(path, ".py");
    ScriptKeys();
  }

  /** A path ending in ".sh" always gets the shell template. */
  lemma ShIsShell(path: string)
    requires EndsWith(path, ".sh")
    ensures TemplateFor(path) == Some(ShellHeader)
  {
    LongerNotKeyByEnding(".sh");
    ByExtensionKey(path, ".sh");
    ScriptKeys();
  }

  /** No key is a longer name ending in `ext`. */
  ghost predicate LongerNotKey(ext: string) {
    forall k :: EndsWith(k, ext) && |k| > |ext| ==> KeyTemplate(k).None?
  }

  /**
   A path ending in a dotted extension that no longer key ends in gets the
   extension's own template when its base name is just the extension, and
   the lower-cased extension's template otherwise.
   */
  lemma ByExtensionKey(path: string, ext: string)
    requires EndsWith(path, ext) && |ext| >= 2 && ext[0] == '.' && '.' !in ext[1..] && '/' !in ext
    requires LongerNotKey(ext)
    ensures |BaseName(path)| >= |ext|
    ensures |BaseName(path)| == |ext| ==> TemplateFor(path) == KeyTemplate(ext)
    ensures |BaseName(path)| > |ext| ==> TemplateFor(path) == KeyTemplate(Lower(ext))
  {
    DottedPath(path, ext);
    var name := BaseName(path);
    if |name| == |ext| {
      assert name == ext && Suffix(name) == "";
      assert Lower("") == "";
    } else {
      assert KeyTemplate(name).None?;
    }
  }

  /** The last character of a name is that of any ending it has. */
  lemma LastOf(name: string, ext: string)
    requires EndsWith(name, ext) && |ext| > 0
    ensures name[|name| - 1] == ext[|ext| - 1]
  {
    assert name[|name| - 1] == name[|name| - |ext|..][|ext| - 1];
  }

  /** An extension whose last character no longer key ends with, given the keys' lengths. */
  lemma LongerNotKeyByEnding(ext: string)
    requires |ext| > 0 && ext[|ext| - 1] != 'e'
    requires |ext| <= 3 ==> ext[|ext| - 1] != 'p' && ext[|ext| - 1] != 'm'
    requires |ext| <= 2 ==> (ext[|ext| - 1] != 'c' && ext[|ext| - 1] != 'h' && ext[|ext| - 1] != 'S'
      && ext[|ext| - 1] != 's' && ext[|ext| - 1] != 'y')
    ensures LongerNotKey(ext)
  {
    forall k | EndsWith(k, ext) && |k| > |ext|
      ensures KeyTemplate(k).None?
    {
      KeyEnding(k);
      LastOf(k, ext);
    }
  }

  /** The last character of every key; only the short keys end in 'c', 'h', 's' or 'y'. */
  lemma KeyEnding(k: string)
    ensures KeyTemplate(k).Some? ==> |k| >= 2
    ensures KeyTemplate(k).Some? && |k| <= 3 ==> (k[|k| - 1] == 'c' || k[|k| - 1] == 'h' || k[|k| - 1] == 'S'
      || k[|k| - 1] == 's' || k[|k| - 1] == 'y')
    ensures KeyTemplate(k).Some? && |k| > 3 ==> (k[|k| - 1] == 'p' || k[|k| - 1] == 'm' || k[|k| - 1] == 'e')
    ensures KeyTemplate(k).Some? && |k| > 4 ==> k[|k| - 1] == 'e'
  {
  }

  /** An extension without capitals that is a key is its own lower-cased form. */
  lemma ExtensionKey(ext: string, t: Template)
    requires forall k :: 0 <= k < |ext| ==> !('A' <= ext[k] <= 'Z')
    requires KeyTemplate(ext) == Some(t)
    ensures KeyTemplate(Lower(ext)) == Some(t)
  {
    LowerPlain(ext);
  }

  /** The script extensions are already lower case. */
  lemma ScriptKeys()
    ensures KeyTemplate(Lower(".py")) == Some(PythonHeader) && KeyTemplate(Lower(".sh")) == Some(ShellHeader)
    ensures KeyTemplate(".py") == Some(PythonHeader) && KeyTemplate(".sh") == Some(ShellHeader)
  {
    ExtensionKey(".py", PythonHeader);
    ExtensionKey(".sh", ShellHeader);
  }

  /** Lower-casing leaves text without capitals as it is. */
  lemma LowerPlain(s: string)
    requires forall k :: 0 <= k < |s| ==> !('A' <= s[k] <= 'Z')
    ensures Lower(s) == s
  {
  }

  /** A path ending in a dotted extension: its base name is the extension, or ends with it and has it as suffix. */
  lemma DottedPath(path: string, ext: string)
    requires EndsWith(path, ext) && |ext| >= 2 && ext[0] == '.' && '.' !in ext[1..] && '/' !in ext
    ensures EndsWith(BaseName(path), ext) && |BaseName(path)| >= |ext|
    ensures |BaseName(path)| == |ext| ==> BaseName(path) == ext && Suffix(BaseName(path)) == ""
    ensures |BaseName(path)| > |ext| ==> Suffix(BaseName(path)) == ext
  {
    var name := BaseName(path);
    NoSlashInTail(path, ext);
    assert name[|name| - |ext|..] == path[|path| - |ext|..] == ext;
    SuffixOfExtension(name, ext);
  }

  // ---------------------------------------------------------------------
  // Properties of process_file
  // ---------------------------------------------------------------------

  /** The comment block of the header a path gets, after the template's lead. */
  function BodyFor(path: string): string
    requires TemplateFor(path).Some?
  {
    var t := TemplateFor(path).value;
    Body(t, BaseName(path), DefaultBrief(t, BaseName(path)))
  }

  /** The header a path gets is its template's lead, then its comment block. */
  lemma HeaderParts(path: string)
    requires TemplateFor(path).Some?
    ensures HeaderFor(path, "").value == Lead(TemplateFor(path).value) + BodyFor(path)
  {
    var h := HeaderFor(path, "").value;
    var l := Lead(TemplateFor(path).value);
    assert h == h[..|l|] + h[|l|..];
  }

  /** Where the shebang is kept, what follows it is exactly the header's comment block. */
  lemma KeptText(path: string, content: string)
    requires KeepsShebang(path, content)
    ensures TemplateFor(path) == Some(PythonHeader) || TemplateFor(path) == Some(ShellHeader)
    ensures var k := FirstLineEnd(content);
      WithHeader(path, content, HeaderFor(path, "").value) == content[..k + 1] + BodyFor(path) + content[k + 1..]
  {
    ScriptDrop(path);
    KeptSplice(path, content, HeaderFor(path, "").value);
  }

  /** The amount cut off the front of the header when the shebang is kept. */
  function ShebangCut(path: string): nat {
    if EndsWith(path, ".py") then |"#!/usr/bin/env python3\n"| else |"#!/bin/bash\n"|
  }

  /** Keeping the shebang splices the cut header in after the first line. */
  lemma KeptSplice(path: string, content: string, header: string)
    requires KeepsShebang(path, content)
    ensures var k := FirstLineEnd(content);
      WithHeader(path, content, header) == content[..k + 1] + Drop(header, ShebangCut(path)) + content[k + 1..]
  {
    TakeOneMore(content, FirstLineEnd(content));
  }

  /** The cut removes exactly the script template's own shebang line. */
  lemma ScriptDrop(path: string)
    requires EndsWith(path, ".py") || EndsWith(path, ".sh")
    ensures TemplateFor(path) == Some(PythonHeader) || TemplateFor(path) == Some(ShellHeader)
    ensures Drop(HeaderFor(path, "").value, ShebangCut(path)) == BodyFor(path)
  {
    if EndsWith(path, ".py") { PyIsPython(path); } else { ShIsShell(path); }
    HeaderParts(path);
  }

  lemma TakeOneMore<T>(s: seq<T>, k: nat)
    requires k < |s|
    ensures s[..k + 1] == s[..k] + [s[k]]
  {
  }

  /** Elsewhere the new text is the header followed by the unchanged content. */
  lemma PlainText(path: string, content: string)
    requires !KeepsShebang(path, content) && TemplateFor(path).Some?
    ensures WithHeader(path, content, HeaderFor(path, "").value)
      == Lead(TemplateFor(path).value) + BodyFor(path) + content
  {
    HeaderParts(path);
  }

  /** A script template's block opens with a bare '#' line and then the notice. */
  lemma HashBodyStart(t: Template, filename: string, brief: string)
    requires t != CHeader && t != AsmHeader
    ensures StartsWith(Body(t, filename, brief), "#\n# " + Notice)
  {
    BlockStart(Opening(t), Mark(t), Closing(t), filename, brief);
    assert Opening(t) == "#\n" && Mark(t) == "#";
  }

  /** A block starts with its opening line, then the mark and the notice. */
  lemma BlockStart(open: string, m: string, close: string, filename: string, brief: string)
    ensures StartsWith(Block(open, m, close, filename, brief), open + m + " " + Notice)
  {
    LineThenRest(open, m, Notice, Concat(MoreLines(m, filename, brief) + [close]));
  }

  lemma LineThenRest(open: string, m: string, q: string, rest: string)
    ensures StartsWith(open + (m + " " + q + "\n") + rest, open + m + " " + q)
  {
    var p := open + m + " " + q;
    assert (open + (m + " " + q + "\n") + rest)[..|p|] == p;
  }

  /**
   For a `.py` or `.sh` script whose text starts with a shebang line and
   goes on past it, the new text starts with that same line, and the
   header's own shebang is gone: the next line opens the comment block.
   */
  lemma ShebangStaysFirst(path: string, content: string)
    requires KeepsShebang(path, content)
    ensures var r := Process(path, Some(content), false, true);
      var k := FirstLineEnd(content);
      r.Added? && r.text[..k + 1] == content[..k + 1] && StartsWith(r.text[k + 1..], "#\n# " + Notice)
  {
    var k := FirstLineEnd(content);
    KeptText(path, content);
    BodyForStart(path);
    var n := WithHeader(path, content, HeaderFor(path, "").value);
    PrefixThenStart(n, content[..k + 1], BodyFor(path), content[k + 1..], "#\n# " + Notice);
  }

  /** A script template's comment block opens with a bare '#' line and then the notice. */
  lemma BodyForStart(path: string)
    requires TemplateFor(path) == Some(PythonHeader) || TemplateFor(path) == Some(ShellHeader)
    ensures StartsWith(BodyFor(path), "#\n# " + Notice)
  {
    var t := TemplateFor(path).value;
    HashBodyStart(t, BaseName(path), DefaultBrief(t, BaseName(path)));
  }

  /** In `x + b + z`, `x` comes first and `b`'s start follows it. */
  lemma PrefixThenStart(n: string, x: string, b: string, z: string, p: string)
    requires n == x + b + z && StartsWith(b, p)
    ensures n[..|x|] == x && StartsWith(n[|x|..], p)
  {
    Parts(x, b, z);
    StartsWithMore(b, z, p);
  }

  /** Outside that case the header goes first, whatever the file starts with. */
  lemma HeaderFirstOtherwise(path: string, content: string)
    requires !KeepsShebang(path, content) && TemplateFor(path).Some?
    ensures var r := Process(path, Some(content), false, true);
      r.Added? && StartsWith(r.text, HeaderFor(path, "").value) && r.text[|HeaderFor(path, "").value|..] == content
  {
    var h := HeaderFor(path, "").value;
    assert WithHeader(path, content, h) == h + content;
    Parts(h, content, "");
  }

  /**
   Adding a header makes the next run find one, provided a kept shebang
   line is short enough for the notice to land within the first 1000
   characters.
   */
  lemma AddThenFound(path: string, content: string, force: bool, dryRun: bool)
    requires Process(path, Some(content), false, force).Added?
    requires KeepsShebang(path, content) ==> FirstLineEnd(content) <= 962
    ensures Process(path, Some(Process(path, Some(content), false, force).text), dryRun, false) == HasHeader
  {
    var n := Process(path, Some(content), false, force).text;
    assert n == WithHeader(path, content, HeaderFor(path, "").value);
    if KeepsShebang(path, content) {
      FoundAfterKept(path, content);
    } else {
      FoundAfterPlain(path, content);
    }
  }

  lemma FoundAfterKept(path: string, content: string)
    requires KeepsShebang(path, content) && FirstLineEnd(content) <= 962
    ensures TemplateFor(path).Some? && HasCopyrightHeader(WithHeader(path, content, HeaderFor(path, "").value))
  {
    KeptText(path, content);
    BodyForNotice(path);
    ScriptNoticeAt();
    var k := FirstLineEnd(content);
    var n := WithHeader(path, content, HeaderFor(path, "").value);
    NoticeSeenIn(n, content[..k + 1], BodyFor(path), content[k + 1..], 4);
  }

  lemma FoundAfterPlain(path: string, content: string)
    requires !KeepsShebang(path, content) && TemplateFor(path).Some?
    ensures HasCopyrightHeader(WithHeader(path, content, HeaderFor(path, "").value))
  {
    var t := TemplateFor(path).value;
    PlainText(path, content);
    LeadShort(t);
    BodyForNotice(path);
    var n := WithHeader(path, content, HeaderFor(path, "").value);
    NoticeSeenIn(n, Lead(t), BodyFor(path), content, NoticeAt(t));
  }

  /** The notice's place in the comment block a path gets. */
  lemma BodyForNotice(path: string)
    requires TemplateFor(path).Some?
    ensures OccursAt(BodyFor(path), Notice, NoticeAt(TemplateFor(path).value))
  {
  }

  /** The notice inside the middle part, ending within the window, is seen. */
  lemma NoticeSeenIn(n: string, x: string, b: string, z: string, i: nat)
    requires n == x + b + z && OccursAt(b, Notice, i) && |x| + i + |Notice| <= Window
    ensures HasCopyrightHeader(n)
  {
    OccursShift(x, b, z, Notice, i);
    NoticeSeen(n, |x| + i);
  }

  lemma ScriptNoticeAt()
    ensures NoticeAt(PythonHeader) == 4 && NoticeAt(ShellHeader) == 4
  {
  }

  lemma LeadShort(t: Template)
    ensures |Lead(t)| + NoticeAt(t) <= 27
  {
  }

  /** The parts of a three-way concatenation are where they were put. */
  lemma Parts(x: string, y: string, z: string)
    ensures (x + y + z)[..|x|] == x && (x + y + z)[|x|..] == y + z
  {
  }

  lemma StartsWithMore(s: string, more: string, p: string)
    requires StartsWith(s, p)
    ensures StartsWith(s + more, p)
  {
    assert (s + more)[..|p|] == s[..|p|];
  }

  /** An occurrence inside the middle part of a concatenation, shifted by the first part. */
  lemma OccursShift(x: string, y: string, z: string, t: string, i: nat)
    requires OccursAt(y, t, i)
    ensures OccursAt(x + y + z, t, |x| + i)
  {
    assert (x + y + z)[|x| + i..|x| + i + |t|] == y[i..i + |t|];
  }

  // ---------------------------------------------------------------------
  // main: exclusions and the summary
  // ---------------------------------------------------------------------

  /** The directories the walk never enters. */
  const ExcludeDirs: seq<string> := ["build", ".git", "__pycache__", "clib", "guest"]

  /** The default file patterns; --exclude appends more. */
  const DefaultPatterns: seq<string> := ["*.o", "*.bin", "*.img", "*.gz", "*.pyc", "*.so", "*.a", "*.lib", "*.dll"]

  /** `dirs[:] = [d for d in dirs if d not in exclude_dirs]`. */
  function KeepDirs(dirs: seq<string>): (r: seq<string>)
    ensures |r| <= |dirs|
    ensures forall d :: d in r <==> d in dirs && d !in ExcludeDirs
  {
    if |dirs| == 0 then []
    else
      var rest := KeepDirs(dirs[1..]);
      assert forall d :: d in dirs <==> d == dirs[0] || d in dirs[1..];
      if dirs[0] in ExcludeDirs then rest else [dirs[0]] + rest
  }

  /** `pattern.replace('*', '')`. */
  function Unstar(p: string): (r: string)
    ensures '*' !in r && |r| <= |p|
  {
    if |p| == 0 then ""
    else if p[0] == '*' then Unstar(p[1..])
    else [p[0]] + Unstar(p[1..])
  }

  /**
   The walk's exclusion test as written: a file is skipped when its path
   ends with a pattern's text or merely contains it.
   */
  function ExcludedAsWritten(filepath: string, patterns: seq<string>): (b: bool)
    ensures b <==> exists k :: (0 <= k < |patterns|
      && (EndsWith(filepath, Unstar(patterns[k])) || HasSubstring(filepath, Unstar(patterns[k]))))
  {
    if |patterns| == 0 then false
    else
      var q := Unstar(patterns[0]);
      (EndsWith(filepath, q) || HasSubstring(filepath, q)) || ExcludedAsWritten(filepath, patterns[1..])
  }

  /** "*.a", meant for archives, also matches every ".asm" source, which has a template. */
  lemma AsmSourceExcluded(filepath: string)
    requires EndsWith(filepath, ".asm")
    ensures ExcludedAsWritten(filepath, DefaultPatterns)
    ensures TemplateFor(filepath) == Some(AsmHeader)
  {
    ArchivePattern();
    assert OccursAt(filepath, ".a", |filepath| - 4) by {
      assert filepath[|filepath| - 4..|filepath| - 2] == filepath[|filepath| - 4..][..2];
    }
    assert HasSubstring(filepath, Unstar(DefaultPatterns[6]));
    AsmIsAsm(filepath);
  }

  /** The seventh default pattern is "*.a", which without its star is ".a". */
  lemma ArchivePattern()
    ensures DefaultPatterns[6] == "*.a" && Unstar(DefaultPatterns[6]) == ".a"
  {
    UnstarPlain(".a");
  }

  /** A path ending in ".asm" gets the assembly template. */
  lemma AsmIsAsm(path: string)
    requires EndsWith(path, ".asm")
    ensures TemplateFor(path) == Some(AsmHeader)
  {
    LongerNotKeyByEnding(".asm");
    ByExtensionKey(path, ".asm");
    AsmKey();
  }

  lemma AsmKey()
    ensures KeyTemplate(Lower(".asm")) == Some(AsmHeader) && KeyTemplate(".asm") == Some(AsmHeader)
  {
    ExtensionKey(".asm", AsmHeader);
  }

  /** The test the patterns are meant for: a file matches when its path ends with a pattern's text. */
  function Excluded(filepath: string, patterns: seq<string>): (b: bool)
    ensures b <==> exists k :: 0 <= k < |patterns| && EndsWith(filepath, Unstar(patterns[k]))
  {
    if |patterns| == 0 then false
    else EndsWith(filepath, Unstar(patterns[0])) || Excluded(filepath, patterns[1..])
  }

  /** The default patterns' extensions, none of which is a key. */
  const DefaultExtensions: seq<string> := [".o", ".bin", ".img", ".gz", ".pyc", ".so", ".a", ".lib", ".dll"]

  /** Under the suffix test no default pattern hides a file that has a template. */
  lemma ExcludedHasNoTemplate(filepath: string)
    requires Excluded(filepath, DefaultPatterns)
    ensures TemplateFor(filepath) == None
  {
    var k :| 0 <= k < |DefaultPatterns| && EndsWith(filepath, Unstar(DefaultPatterns[k]));
    UnstarDefaults();
    NoTemplateFor(filepath, DefaultExtensions[k]);
  }

  /** A path ending in one of the default extensions has no template. */
  lemma NoTemplateFor(filepath: string, ext: string)
    requires IsDefaultExtension(ext) && EndsWith(filepath, ext)
    ensures TemplateFor(filepath) == None
  {
    DefaultsPlain();
    LowerPlain(ext);
    ExtensionNoKey(ext);
    ByExtensionKey(filepath, ext);
  }

  /** Each default pattern is a star followed by its extension. */
  lemma UnstarDefaults()
    ensures forall k :: 0 <= k < |DefaultPatterns| ==> Unstar(DefaultPatterns[k]) == DefaultExtensions[k]
  {
    DefaultsPlain();
    forall k | 0 <= k < |DefaultPatterns|
      ensures Unstar(DefaultPatterns[k]) == DefaultExtensions[k]
    {
      assert DefaultPatterns[k] == "*" + DefaultExtensions[k];
      UnstarPlain(DefaultExtensions[k]);
    }
  }

  /** Each default extension is a dot then lower-case letters. */
  lemma DefaultsPlain()
    ensures forall e :: e in DefaultExtensions ==> IsDefaultExtension(e)
    ensures forall e :: IsDefaultExtension(e) ==> PlainExtension(e)
  {
  }

  predicate IsDefaultExtension(e: string) {
    e == ".o" || e == ".bin" || e == ".img" || e == ".gz" || e == ".pyc" || e == ".so" || e == ".a" || e == ".lib" || e == ".dll"
  }

  /** A dot then at least one lower-case letter. */
  predicate PlainExtension(ext: string) {
    |ext| >= 2 && ext[0] == '.' && '.' !in ext[1..] && '/' !in ext && '*' !in ext
    && forall j :: 0 <= j < |ext| ==> !('A' <= ext[j] <= 'Z')
  }

  lemma UnstarPlain(s: string)
    requires '*' !in s
    ensures Unstar(s) == s
  {
    if |s| > 0 {
      UnstarPlain(s[1..]);
      assert s == [s[0]] + s[1..];
    }
  }

  /** The characters of a slash-free ending are not slashes. */
  lemma NoSlashInTail(path: string, ext: string)
    requires EndsWith(path, ext) && '/' !in ext
    ensures forall m :: |path| - |ext| <= m < |path| ==> path[m] != '/'
  {
    forall m | |path| - |ext| <= m < |path|
      ensures path[m] != '/'
    {
      assert path[m] == path[|path| - |ext|..][m - (|path| - |ext|)];
    }
  }

  /** No default extension is a key, nor is any longer name ending in one. */
  lemma ExtensionNoKey(ext: string)
    requires IsDefaultExtension(ext)
    ensures KeyTemplate(ext).None? && LongerNotKey(ext)
  {
    KeyEnding(ext);
    LongerNotKeyByEnding(ext);
  }

  /** What main counts: excluded files are skipped without being read. */
  datatype Examined = ExcludedFile | Ran(outcome: Outcome)

  datatype Tally = Tally(processed: nat, alreadyHasHeader: nat, skipped: nat)

  /** One file's contribution to the summary. */
  function Count(t: Tally, e: Examined): Tally {
    match e
    case ExcludedFile => t.(skipped := t.skipped + 1)
    case Ran(r) =>
      if r.Added? || r == WouldAdd then t.(processed := t.processed + 1)
      else if r == HasHeader then t.(alreadyHasHeader := t.alreadyHasHeader + 1)
      else t.(skipped := t.skipped + 1)
  }

  /** The summary after the files in `es`, in order. */
  function TallyOf(es: seq<Examined>): Tally {
    if |es| == 0 then Tally(0, 0, 0)
    else Count(TallyOf(es[..|es| - 1]), es[|es| - 1])
  }

  /** Every file examined is counted exactly once: the summary's total is the number of files. */
  lemma {:induction false} TallyTotal(es: seq<Examined>)
    ensures TallyOf(es).processed + TallyOf(es).alreadyHasHeader + TallyOf(es).skipped == |es|
  {
    if |es| > 0 {
      TallyTotal(es[..|es| - 1]);
    }
  }
}
