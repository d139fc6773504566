/**
 The symbol-table analyser (scripts/avatar_symbols.py): the lines of
 `objdump -t` output between the table's heading and the disassembly are
 split into fields, each well-formed line becomes a symbol, and the
 symbols are filtered, sorted and summarised per section. The file is
 given as its lines; reading it and printing reports are left out.
 */
module Symbols {
  import opened Util
  import CheckDeps

  const TableMarker := "SYMBOL TABLE:"
  const TextMarker := "Disassembly of section .text:"

  // ---------------------------------------------------------------------
  // read_symbol_table_from_file
  // ---------------------------------------------------------------------

  predicate IsTableMarker(line: string) { CheckDeps.Strip(line) == TableMarker }
  predicate IsTextMarker(line: string) { StartsWith(CheckDeps.Strip(line), TextMarker) }

  /** The first line at or after `from` that `p` holds of, or the end. */
  function FindLine(lines: seq<string>, from: nat, p: string -> bool): (i: nat)
    requires from <= |lines|
    ensures from <= i <= |lines| && (i < |lines| ==> p(lines[i]))
    ensures forall j :: from <= j < i ==> !p(lines[j])
    decreases |lines| - from
  {
    if from == |lines| || p(lines[from]) then from else FindLine(lines, from + 1, p)
  }

  /** The first heading line at or after `from`, or the end. */
  function FindTableMarker(lines: seq<string>, from: nat): (i: nat)
    requires from <= |lines|
    ensures from <= i <= |lines| && (i < |lines| ==> IsTableMarker(lines[i]))
    ensures forall j :: from <= j < i ==> !IsTableMarker(lines[j])
  {
    FindLine(lines, from, IsTableMarker)
  }

  /** The first disassembly line at or after `from`, or the end. */
  function FindTextMarker(lines: seq<string>, from: nat): (i: nat)
    requires from <= |lines|
    ensures from <= i <= |lines| && (i < |lines| ==> IsTextMarker(lines[i]))
    ensures forall j :: from <= j < i ==> !IsTextMarker(lines[j])
  {
    FindLine(lines, from, IsTextMarker)
  }

  /** Every line stripped. */
  function StripAll(lines: seq<string>): (r: seq<string>)
    ensures |r| == |lines| && forall j :: 0 <= j < |lines| ==> r[j] == CheckDeps.Strip(lines[j])
  {
    seq(|lines|, j requires 0 <= j < |lines| => CheckDeps.Strip(lines[j]))
  }

  /** The non-blank lines, in order. */
  function NonBlank(lines: seq<string>): (r: seq<string>)
    ensures |r| <= |lines|
    ensures forall t :: t in r <==> t in lines && t != ""
  {
    if |lines| == 0 then []
    else
      var rest := NonBlank(lines[1..]);
      assert forall t :: t in lines <==> t == lines[0] || t in lines[1..];
      if lines[0] != "" then [lines[0]] + rest else rest
  }

  /**
   read_symbol_table_from_file: nothing without a heading line; otherwise
   the non-blank lines after the first heading, up to the first line that
   starts the disassembly (or to the end), stripped.
   */
  function ReadSymbolTable(lines: seq<string>): (r: seq<string>)
    ensures (forall j :: 0 <= j < |lines| ==> !IsTableMarker(lines[j])) ==> r == []
  {
    var s := FindTableMarker(lines, 0);
    if s == |lines| then []
    else NonBlank(StripAll(lines[s + 1..FindTextMarker(lines, s + 1)]))
  }

  /** The table's lines are non-blank and none starts the disassembly. */
  lemma TableLinesClean(lines: seq<string>)
    ensures forall t :: t in ReadSymbolTable(lines) ==> t != "" && !StartsWith(t, TextMarker)
  {
    var s := FindTableMarker(lines, 0);
    if s < |lines| {
      BodyHasNoText(lines, s + 1, FindTextMarker(lines, s + 1));
    }
  }

  /** No line before the first disassembly line starts the disassembly once stripped. */
  lemma BodyHasNoText(lines: seq<string>, from: nat, e: nat)
    requires from <= |lines| && e == FindTextMarker(lines, from)
    ensures forall t :: t in StripAll(lines[from..e]) ==> !StartsWith(t, TextMarker)
  {
    var body := StripAll(lines[from..e]);
    forall j | 0 <= j < |body| ensures !StartsWith(body[j], TextMarker) {
      assert lines[from..e][j] == lines[from + j];
    }
  }

  /** A line that is already stripped and not blank. */
  predicate Clean(line: string) { line != "" && CheckDeps.Strip(line) == line }

  /**
   The table between its heading and the disassembly comes back as it
   was, when the lines before carry no heading and the table's lines are
   clean and start no disassembly.
   */
  lemma ReadsTableBody(pre: seq<string>, body: seq<string>, post: seq<string>)
    requires forall j :: 0 <= j < |pre| ==> !IsTableMarker(pre[j])
    requires forall j :: 0 <= j < |body| ==> Clean(body[j]) && !IsTextMarker(body[j])
    ensures ReadSymbolTable(pre + [TableMarker] + body + [TextMarker] + post) == body
  {
    var lines := pre + [TableMarker] + body + [TextMarker] + post;
    var s := |pre|;
    var e := s + 1 + |body|;
    MarkersClean();
    TableShape(pre, body, post);
    FirstTableMarker(lines, s);
    forall j | s + 1 <= j < e
      ensures !IsTextMarker(lines[j])
    {
      assert lines[s + 1 + (j - s - 1)] == body[j - s - 1];
    }
    FirstTextMarker(lines, s + 1, e);
    ReadTableAt(lines, s, e);
    var mid := lines[s + 1..e];
    assert mid == body;
    StripAllClean(body);
    NonBlankClean(body);
    calc {
      ReadSymbolTable(lines);
      NonBlank(StripAll(mid));
      NonBlank(body);
      body;
    }
  }

  /** Where the lines sit in a table laid out between its two markers. */
  lemma TableShape(pre: seq<string>, body: seq<string>, post: seq<string>)
    ensures var lines := pre + [TableMarker] + body + [TextMarker] + post;
      |lines| > |pre| + 1 + |body| && lines[|pre|] == TableMarker && lines[|pre| + 1 + |body|] == TextMarker
      && (forall j :: 0 <= j < |pre| ==> lines[j] == pre[j])
      && (forall j :: 0 <= j < |body| ==> lines[|pre| + 1 + j] == body[j])
      && lines[|pre| + 1..|pre| + 1 + |body|] == body
  {
  }

  /** Once both markers are found, the table is the non-blank stripped lines between them. */
  lemma ReadTableAt(lines: seq<string>, s: nat, e: nat)
    requires s < |lines| && FindTableMarker(lines, 0) == s && FindTextMarker(lines, s + 1) == e
    ensures ReadSymbolTable(lines) == NonBlank(StripAll(lines[s + 1..e]))
  {
    var body := lines[s + 1..e];
    assert ReadSymbolTable(lines) == NonBlank(StripAll(body)) by {
      assert FindTableMarker(lines, 0) != |lines|;
    }
  }

  lemma MarkersClean()
    ensures CheckDeps.Strip(TableMarker) == TableMarker
    ensures CheckDeps.Strip(TextMarker) == TextMarker && StartsWith(TextMarker, TextMarker)
  {
    assert !CheckDeps.IsSpace(TableMarker[0]) && !CheckDeps.IsSpace(TableMarker[|TableMarker| - 1]);
    assert !CheckDeps.IsSpace(TextMarker[0]) && !CheckDeps.IsSpace(TextMarker[|TextMarker| - 1]);
  }

  lemma FirstTableMarker(lines: seq<string>, i: nat)
    requires i < |lines| && IsTableMarker(lines[i])
    requires forall j :: 0 <= j < i ==> !IsTableMarker(lines[j])
    ensures FindTableMarker(lines, 0) == i
  {
  }

  lemma FirstTextMarker(lines: seq<string>, from: nat, i: nat)
    requires from <= i < |lines| && IsTextMarker(lines[i])
    requires forall j :: from <= j < i ==> !IsTextMarker(lines[j])
    ensures FindTextMarker(lines, from) == i
  {
  }

  lemma {:induction false} NonBlankClean(lines: seq<string>)
    requires forall j :: 0 <= j < |lines| ==> lines[j] != ""
    ensures NonBlank(lines) == lines
  {
    if |lines| > 0 {
      NonBlankClean(lines[1..]);
      assert lines == [lines[0]] + lines[1..];
    }
  }

  lemma StripAllClean(lines: seq<string>)
    requires forall j :: 0 <= j < |lines| ==> Clean(lines[j])
    ensures StripAll(lines) == lines
  {
  }

  // ---------------------------------------------------------------------
  // Fields and numbers
  // ---------------------------------------------------------------------

  predicate NoSpace(w: string) {
    forall k :: 0 <= k < |w| ==> !CheckDeps.IsSpace(w[k])
  }

  predicate IsField(w: string) { |w| > 0 && NoSpace(w) }

  predicate AllFields(ws: seq<string>) {
    forall a :: 0 <= a < |ws| ==> IsField(ws[a])
  }

  function SkipSpace(s: string, i: nat): (j: nat)
    requires i <= |s|
    ensures i <= j <= |s| && (j < |s| ==> !CheckDeps.IsSpace(s[j]))
    decreases |s| - i
  {
    if i < |s| && CheckDeps.IsSpace(s[i]) then SkipSpace(s, i + 1) else i
  }

  function FieldEnd(s: string, i: nat): (j: nat)
    requires i <= |s|
    ensures i <= j <= |s| && (j < |s| ==> CheckDeps.IsSpace(s[j]))
    ensures forall k :: i <= k < j ==> !CheckDeps.IsSpace(s[k])
    decreases |s| - i
  {
    if i < |s| && !CheckDeps.IsSpace(s[i]) then FieldEnd(s, i + 1) else i
  }

  /** The runs of non-whitespace from position `i` on. */
  function FieldsFrom(s: string, i: nat): (ws: seq<string>)
    requires i <= |s|
    ensures AllFields(ws)
    decreases |s| - i
  {
    var j := SkipSpace(s, i);
    if j == |s| then []
    else
      var k := FieldEnd(s, j);
      var w := s[j..k];
      assert IsField(w) by {
        forall m | 0 <= m < |w| ensures !CheckDeps.IsSpace(w[m]) { assert w[m] == s[j + m]; }
      }
      [w] + FieldsFrom(s, k)
  }

  /** `re.split(r'\s+', line.strip())` on a line that has fields: its runs of non-whitespace. */
  function Fields(s: string): (ws: seq<string>)
    ensures AllFields(ws)
  {
    FieldsFrom(s, 0)
  }

  /** Fields separated by single spaces. */
  function JoinFields(ws: seq<string>): string
  {
    if |ws| == 0 then ""
    else if |ws| == 1 then ws[0]
    else ws[0] + " " + JoinFields(ws[1..])
  }

  /** Splitting fields joined by single spaces gives the fields back. */
  lemma SplitJoin(ws: seq<string>)
    requires AllFields(ws)
    ensures Fields(JoinFields(ws)) == ws
  {
    var s := JoinFields(ws);
    assert s[0..] == s;
    SplitJoinFrom(s, 0, ws);
  }

  lemma {:induction false} SplitJoinFrom(s: string, i: nat, ws: seq<string>)
    requires i <= |s| && s[i..] == JoinFields(ws) && AllFields(ws)
    ensures FieldsFrom(s, i) == ws
    decreases |ws|
  {
    if |ws| == 0 {
      assert i == |s|;
    } else {
      HeadTail(ws);
      if |ws| == 1 {
        SplitLast(s, i, ws[0]);
      } else {
        var next := SplitMore(s, i, ws);
        SplitJoinFrom(s, next, ws[1..]);
      }
    }
  }

  /** A single field is split off whole. */
  lemma SplitLast(s: string, i: nat, w: string)
    requires i <= |s| && s[i..] == w && IsField(w)
    ensures FieldsFrom(s, i) == [w]
  {
    JoinFieldsShape(s, i, [w]);
    FieldAt(s, i, w);
    assert FieldsFrom(s, i + |w|) == [];
  }

  /** The first of several joined fields is split off, and splitting goes on where the others start. */
  lemma SplitMore(s: string, i: nat, ws: seq<string>) returns (next: nat)
    requires |ws| > 1 && i <= |s| && s[i..] == JoinFields(ws) && AllFields(ws)
    ensures next <= |s| && s[next..] == JoinFields(ws[1..]) && AllFields(ws[1..])
    ensures FieldsFrom(s, i) == [ws[0]] + FieldsFrom(s, next)
  {
    next := i + |ws[0]| + 1;
    JoinFieldsShape(s, i, ws);
    AllFieldsTail(ws);
    FieldThenSpace(s, i, ws[0], next);
  }

  lemma AllFieldsTail(ws: seq<string>)
    requires |ws| > 0 && AllFields(ws)
    ensures IsField(ws[0]) && AllFields(ws[1..])
  {
    forall a | 0 <= a < |ws[1..]| ensures IsField(ws[1..][a]) { assert ws[1..][a] == ws[a + 1]; }
  }

  /** A field followed by one blank: the field, then splitting resumes after the blank. */
  lemma FieldThenSpace(s: string, i: nat, w: string, next: nat)
    requires IsField(w) && i + |w| < |s| && s[i..i + |w|] == w && next == i + |w| + 1
    requires forall k :: i <= k < i + |w| ==> !CheckDeps.IsSpace(s[k])
    requires CheckDeps.IsSpace(s[i + |w|])
    ensures FieldsFrom(s, i) == [w] + FieldsFrom(s, next)
  {
    FieldAt(s, i, w);
    SkipOneSpace(s, i + |w|);
  }

  /** A field starting at `i` is taken whole and splitting resumes after it. */
  lemma FieldAt(s: string, i: nat, w: string)
    requires IsField(w) && i + |w| <= |s| && s[i..i + |w|] == w
    requires forall k :: i <= k < i + |w| ==> !CheckDeps.IsSpace(s[k])
    requires i + |w| < |s| ==> CheckDeps.IsSpace(s[i + |w|])
    ensures FieldsFrom(s, i) == [w] + FieldsFrom(s, i + |w|)
  {
    assert !CheckDeps.IsSpace(s[i]);
    FieldEndAt(s, i, i + |w|);
  }

  lemma HeadTail<T>(s: seq<T>)
    requires |s| > 0
    ensures s == [s[0]] + s[1..]
  {
  }

  /** Splitting from a blank is splitting from just after it. */
  lemma SkipOneSpace(s: string, k: nat)
    requires k < |s| && CheckDeps.IsSpace(s[k])
    ensures FieldsFrom(s, k) == FieldsFrom(s, k + 1)
  {
    assert SkipSpace(s, k) == SkipSpace(s, k + 1);
  }

  lemma JoinFieldsShape(s: string, i: nat, ws: seq<string>)
    requires |ws| > 0 && i <= |s| && s[i..] == JoinFields(ws) && AllFields(ws)
    ensures i + |ws[0]| <= |s| && s[i..i + |ws[0]|] == ws[0]
    ensures forall k :: i <= k < i + |ws[0]| ==> !CheckDeps.IsSpace(s[k])
    ensures |ws| == 1 ==> i + |ws[0]| == |s|
    ensures |ws| > 1 ==> (i + |ws[0]| + 1 < |s| && s[i + |ws[0]|] == ' '
      && !CheckDeps.IsSpace(s[i + |ws[0]| + 1]) && s[i + |ws[0]| + 1..] == JoinFields(ws[1..]))
  {
    var w := ws[0];
    var rest := s[i..];
    if |ws| > 1 {
      assert rest == w + " " + JoinFields(ws[1..]);
      assert s[i + |w| + 1..] == rest[|w| + 1..];
      assert rest[|w| + 1..] == JoinFields(ws[1..]);
      assert s[i + |w|] == rest[|w|];
      JoinFieldsStart(ws[1..]);
      assert s[i + |w| + 1] == JoinFields(ws[1..])[0];
    }
    assert s[i..i + |w|] == rest[..|w|];
    forall k | i <= k < i + |w| ensures !CheckDeps.IsSpace(s[k]) {
      assert s[k] == w[k - i];
    }
  }

  lemma JoinFieldsStart(ws: seq<string>)
    requires |ws| > 0 && AllFields(ws)
    ensures |JoinFields(ws)| > 0 && JoinFields(ws)[0] == ws[0][0]
  {
  }

  lemma {:induction false} FieldEndAt(s: string, i: nat, e: nat)
    requires i <= e <= |s| && (e < |s| ==> CheckDeps.IsSpace(s[e]))
    requires forall k :: i <= k < e ==> !CheckDeps.IsSpace(s[k])
    ensures FieldEnd(s, i) == e
    decreases e - i
  {
    if i < e {
      FieldEndAt(s, i + 1, e);
    }
  }

  predicate IsHexDigit(c: char) {
    '0' <= c <= '9' || 'a' <= c <= 'f' || 'A' <= c <= 'F'
  }

  function HexDigitValue(c: char): (v: nat)
    requires IsHexDigit(c)
    ensures v < 16
  {
    if '0' <= c <= '9' then c as int - '0' as int
    else if 'a' <= c <= 'f' then c as int - 'a' as int + 10
    else c as int - 'A' as int + 10
  }

  predicate AllHex(s: string) {
    forall k :: 0 <= k < |s| ==> IsHexDigit(s[k])
  }

  function Pow16(n: nat): (p: nat)
    ensures p >= 1
  {
    if n == 0 then 1 else 16 * Pow16(n - 1)
  }

  /** `int(s, 16)` on a string of hex digits, most significant first. */
  function HexValue(s: string): (v: nat)
    requires AllHex(s)
    ensures v < Pow16(|s|)
  {
    if |s| == 0 then 0
    else
      var init := s[..|s| - 1];
      assert AllHex(init) by { forall k | 0 <= k < |init| ensures IsHexDigit(init[k]) { assert init[k] == s[k]; } }
      HexValue(init) * 16 + HexDigitValue(s[|s| - 1])
  }

  /** A 16-digit hex address is below 2^64. */
  lemma AddressFits(s: string)
    requires |s| == 16 && AllHex(s)
    ensures HexValue(s) < 0x1_0000_0000_0000_0000
  {
    assert Pow16(4) == 0x1_0000;
    Pow16Add(4, 4);
    Pow16Add(8, 8);
  }

  lemma {:induction false} Pow16Add(a: nat, b: nat)
    ensures Pow16(a + b) == Pow16(a) * Pow16(b)
  {
    if b > 0 {
      Pow16Add(a, b - 1);
    }
  }

  /** The 16 hex digits the address field must be. */
  predicate IsAddressField(s: string) { |s| == 16 && AllHex(s) }

  // ---------------------------------------------------------------------
  // int(s, 16)
  // ---------------------------------------------------------------------

  /**
   `(["_"] hexdigit)*` of Python's integer grammar: the digits read, each
   single underscore before a digit dropped; `None` where the text does
   not fit the grammar.
   */
  function DigitRun(s: string): (r: Option<string>)
    ensures r.Some? ==> AllHex(r.value) && |r.value| <= |s|
  {
    if s == [] then Some([])
    else
      var k := if s[0] == '_' then 1 else 0;
      if k < |s| && IsHexDigit(s[k]) then
        var rest := DigitRun(s[k + 1..]);
        if rest.None? then None
        else
          assert AllHex([s[k]] + rest.value) by {
            forall i | 0 <= i < |[s[k]] + rest.value| ensures IsHexDigit(([s[k]] + rest.value)[i]) {
              if i > 0 { assert ([s[k]] + rest.value)[i] == rest.value[i - 1]; }
            }
          }
          Some([s[k]] + rest.value)
      else None
  }

  /** The digits after an optional `0x` or `0X`, which one underscore may follow. */
  function AfterHexPrefix(t: string): string {
    if |t| >= 2 && t[0] == '0' && (t[1] == 'x' || t[1] == 'X') then
      if |t| >= 3 && t[2] == '_' then t[3..] else t[2..]
    else t
  }

  /**
   An unsigned base-16 literal: the prefix, then `hexdigit (["_"] hexdigit)*`;
   `None` where Python rejects it.
   */
  function HexLiteral(t: string): Option<nat> {
    var d := AfterHexPrefix(t);
    if d == [] || d[0] == '_' then None
    else
      var r := DigitRun(d);
      if r.None? then None else Some(HexValue(r.value))
  }

  /** An optional `+` or `-`, then the literal. */
  function SignedLiteral(t: string): Option<int> {
    var signed := |t| > 0 && (t[0] == '+' || t[0] == '-');
    var v := HexLiteral(if signed then t[1..] else t);
    if v.None? then None else if signed && t[0] == '-' then Some(-(v.value as int)) else Some(v.value as int)
  }

  /** `int(s, 16)`: whitespace around the signed literal is ignored; `None` where Python raises `ValueError`. */
  function ParseHexInt(s: string): Option<int> {
    SignedLiteral(CheckDeps.Strip(s))
  }

  lemma HexNotSpace(c: char)
    requires IsHexDigit(c)
    ensures !CheckDeps.IsSpace(c) && c != '_' && c != '+' && c != '-' && c != 'x' && c != 'X'
  {
  }

  /** Hex digits alone read as themselves. */
  lemma {:induction false} DigitRunPlain(d: string)
    requires AllHex(d)
    ensures DigitRun(d) == Some(d)
  {
    if d != [] {
      HexNotSpace(d[0]);
      assert AllHex(d[1..]) by { forall k | 0 <= k < |d[1..]| ensures IsHexDigit(d[1..][k]) { assert d[1..][k] == d[k + 1]; } }
      DigitRunPlain(d[1..]);
      assert d == [d[0]] + d[1..];
    }
  }

  /** One underscore between two runs of digits is dropped. */
  lemma {:induction false} DigitRunJoin(a: string, b: string)
    requires AllHex(a) && b != [] && AllHex(b)
    ensures DigitRun(a + "_" + b) == Some(a + b)
  {
    var s := a + "_" + b;
    if a == [] {
      assert s == "_" + b && s[0] == '_' && s[1] == b[0] && s[2..] == b[1..];
      HexNotSpace(b[0]);
      assert AllHex(b[1..]) by { forall k | 0 <= k < |b[1..]| ensures IsHexDigit(b[1..][k]) { assert b[1..][k] == b[k + 1]; } }
      DigitRunPlain(b[1..]);
      assert [b[0]] + b[1..] == b && a + b == b;
    } else {
      HexNotSpace(a[0]);
      assert AllHex(a[1..]) by { forall k | 0 <= k < |a[1..]| ensures IsHexDigit(a[1..][k]) { assert a[1..][k] == a[k + 1]; } }
      assert s[0] == a[0] && s[1..] == a[1..] + "_" + b;
      DigitRunJoin(a[1..], b);
      assert [a[0]] + (a[1..] + b) == a + b;
    }
  }

  /** An underscore at the end is rejected. */
  lemma {:induction false} DigitRunTrailing(a: string)
    requires AllHex(a)
    ensures DigitRun(a + "_") == None
  {
    if a != [] {
      HexNotSpace(a[0]);
      assert AllHex(a[1..]) by { forall k | 0 <= k < |a[1..]| ensures IsHexDigit(a[1..][k]) { assert a[1..][k] == a[k + 1]; } }
      assert (a + "_")[0] == a[0] && (a + "_")[1..] == a[1..] + "_";
      DigitRunTrailing(a[1..]);
    }
  }

  /** Two underscores in a row are rejected. */
  lemma {:induction false} DigitRunDouble(a: string, b: string)
    requires AllHex(a)
    ensures DigitRun(a + "__" + b) == None
  {
    var s := a + "__" + b;
    if a == [] {
      assert s[0] == '_' && s[1] == '_';
    } else {
      HexNotSpace(a[0]);
      assert AllHex(a[1..]) by { forall k | 0 <= k < |a[1..]| ensures IsHexDigit(a[1..][k]) { assert a[1..][k] == a[k + 1]; } }
      assert s[0] == a[0] && s[1..] == a[1..] + "__" + b;
      DigitRunDouble(a[1..], b);
    }
  }

  /** A plain string of hex digits has no sign and no prefix to strip. */
  lemma PlainHexLiteral(d: string)
    requires d != "" && AllHex(d)
    ensures HexLiteral(d) == Some(HexValue(d))
  {
    HexNotSpace(d[0]);
    if |d| >= 2 {
      HexNotSpace(d[1]);
    }
    assert AfterHexPrefix(d) == d;
    DigitRunPlain(d);
  }

  /** A string with non-blank ends is what `int` reads. */
  lemma StripBare(t: string)
    requires t != "" && !CheckDeps.IsSpace(t[0]) && !CheckDeps.IsSpace(t[|t| - 1])
    ensures CheckDeps.Strip(t) == t
  {
  }

  lemma Unsigned(t: string)
    requires t != "" && t[0] != '+' && t[0] != '-'
    requires !CheckDeps.IsSpace(t[0]) && !CheckDeps.IsSpace(t[|t| - 1])
    ensures HexLiteral(t).None? ==> ParseHexInt(t).None?
    ensures HexLiteral(t).Some? ==> ParseHexInt(t) == Some(HexLiteral(t).value as int)
  {
    StripBare(t);
  }

  lemma Signed(c: char, t: string)
    requires c == '-' || c == '+'
    requires t != "" && !CheckDeps.IsSpace(t[|t| - 1])
    ensures HexLiteral(t).None? ==> ParseHexInt([c] + t).None?
    ensures HexLiteral(t).Some? ==>
      ParseHexInt([c] + t) == Some(if c == '-' then -(HexLiteral(t).value as int) else HexLiteral(t).value as int)
  {
    var s := [c] + t;
    assert s[|s| - 1] == t[|t| - 1];
    StripBare(s);
    assert s[0] == c && s[1..] == t;
  }

  /** `int(d, 16)` of hex digits, as objdump prints a size, is their value. */
  lemma HexIntOfDigits(d: string)
    requires d != "" && AllHex(d)
    ensures ParseHexInt(d) == Some(HexValue(d))
  {
    HexNotSpace(d[0]);
    HexNotSpace(d[|d| - 1]);
    PlainHexLiteral(d);
    Unsigned(d);
  }

  lemma PrefixedLiteral(x: string, d: string)
    requires x == "0x" || x == "0X"
    requires d != "" && AllHex(d)
    ensures HexLiteral(x + d) == Some(HexValue(d))
  {
    var t := x + d;
    HexNotSpace(d[0]);
    assert t[2] == d[0] && t[2..] == d;
    assert AfterHexPrefix(t) == d;
    DigitRunPlain(d);
  }

  /** The prefix `0x` or `0X` is accepted. */
  lemma HexIntPrefixed(x: string, d: string)
    requires x == "0x" || x == "0X"
    requires d != "" && AllHex(d)
    ensures ParseHexInt(x + d) == Some(HexValue(d))
  {
    var t := x + d;
    assert t != "" && t[0] == '0' && !CheckDeps.IsSpace(t[|t| - 1]) by {
      HexNotSpace(d[|d| - 1]);
      assert t[|t| - 1] == d[|d| - 1];
    }
    assert HexLiteral(t) == Some(HexValue(d)) by {
      PrefixedLiteral(x, d);
    }
    UnsignedValue(t, HexValue(d));
  }

  lemma UnsignedValue(t: string, v: nat)
    requires t != "" && t[0] != '+' && t[0] != '-'
    requires !CheckDeps.IsSpace(t[0]) && !CheckDeps.IsSpace(t[|t| - 1])
    requires HexLiteral(t) == Some(v)
    ensures ParseHexInt(t) == Some(v as int)
  {
    StripBare(t);
  }

  /** `-x` of an optional value. */
  function Negated(v: Option<int>): Option<int> {
    if v.None? then None else Some(-v.value)
  }

  /**
   A leading `-` negates what the rest reads as and a leading `+` changes
   nothing; in particular the sign comes before a `0x` prefix.
   */
  lemma HexIntSigned(c: char, t: string)
    requires c == '-' || c == '+'
    requires t != "" && t[0] != '+' && t[0] != '-'
    requires !CheckDeps.IsSpace(t[0]) && !CheckDeps.IsSpace(t[|t| - 1])
    ensures ParseHexInt([c] + t) == if c == '-' then Negated(ParseHexInt(t)) else ParseHexInt(t)
  {
    if HexLiteral(t).Some? {
      SignedSome(c, t);
    } else {
      Unsigned(t);
      Signed(c, t);
    }
  }

  lemma SignedSome(c: char, t: string)
    requires c == '-' || c == '+'
    requires t != "" && t[0] != '+' && t[0] != '-'
    requires !CheckDeps.IsSpace(t[0]) && !CheckDeps.IsSpace(t[|t| - 1])
    requires HexLiteral(t).Some?
    ensures ParseHexInt([c] + t) == if c == '-' then Negated(ParseHexInt(t)) else ParseHexInt(t)
  {
    var v := HexLiteral(t).value;
    UnsignedValue(t, v);
    if c == '-' {
      SignSome(c, t, v);
      NegatedSome(ParseHexInt(t), v as int);
    } else {
      SignSome(c, t, v);
    }
  }

  lemma SignSome(c: char, t: string, v: nat)
    requires c == '-' || c == '+'
    requires t != "" && !CheckDeps.IsSpace(t[|t| - 1])
    requires HexLiteral(t) == Some(v)
    ensures c == '-' ==> ParseHexInt([c] + t) == Some(-(v as int))
    ensures c == '+' ==> ParseHexInt([c] + t) == Some(v as int)
  {
    var s := [c] + t;
    assert s[|s| - 1] == t[|t| - 1];
    StripBare(s);
    assert s[0] == c && s[1..] == t;
  }

  lemma NegatedSome(x: Option<int>, n: int)
    requires x == Some(n)
    ensures Negated(x) == Some(-n)
  {
  }

  /** A single underscore between digits does not change the value. */
  lemma HexIntUnderscore(a: string, b: string)
    requires a != "" && AllHex(a) && b != "" && AllHex(b)
    ensures ParseHexInt(a + "_" + b) == Some(HexValue(a + b))
  {
    var s := a + "_" + b;
    HexNotSpace(a[0]);
    HexNotSpace(b[|b| - 1]);
    assert s[0] == a[0] && s[|s| - 1] == b[|b| - 1];
    if |a| >= 2 {
      HexNotSpace(a[1]);
      assert s[1] == a[1];
    } else {
      assert s[1] == '_';
    }
    assert AfterHexPrefix(s) == s;
    DigitRunJoin(a, b);
    Unsigned(s);
  }

  /** Python's grammar rejects an underscore at the end and two in a row. */
  lemma HexIntBadUnderscore(a: string, b: string)
    requires a != "" && AllHex(a) && AllHex(b)
    ensures ParseHexInt(a + "_") == None
    ensures ParseHexInt(a + "__" + b) == None
  {
    HexNotSpace(a[0]);
    var s := a + "_";
    var s' := a + "__" + b;
    assert s[0] == a[0] && s'[0] == a[0];
    if |a| >= 2 {
      HexNotSpace(a[1]);
      assert s[1] == a[1] && s'[1] == a[1];
    } else {
      assert s[1] == '_' && s'[1] == '_';
    }
    if b != [] {
      HexNotSpace(b[|b| - 1]);
      assert s'[|s'| - 1] == b[|b| - 1];
    }
    assert AfterHexPrefix(s) == s && AfterHexPrefix(s') == s';
    DigitRunTrailing(a);
    DigitRunDouble(a, b);
    Unsigned(s);
    Unsigned(s');
  }

  /** Without a single hex digit `int(s, 16)` raises. */
  lemma HexIntNeedsDigit(s: string)
    requires forall k :: 0 <= k < |s| ==> !IsHexDigit(s[k])
    ensures ParseHexInt(s) == None
  {
    var t := CheckDeps.Strip(s);
    CheckDeps.StripInside(s);
    var u := if |t| > 0 && (t[0] == '+' || t[0] == '-') then t[1..] else t;
    var d := AfterHexPrefix(u);
    if d != [] && d[0] != '_' {
      assert d[0] in u;
      assert d[0] in t;
      assert DigitRun(d) == None;
    }
    assert HexLiteral(u) == None;
    assert SignedLiteral(t) == None;
  }

  /** The size: `*ABS*` is 0; otherwise `int(s, 16)`, and 0 where that raises. */
  function SizeValue(s: string): (v: int)
    ensures s == "*ABS*" ==> v == 0
    ensures s != "*ABS*" && ParseHexInt(s).Some? ==> v == ParseHexInt(s).value
    ensures ParseHexInt(s).None? ==> v == 0
  {
    if s == "*ABS*" then 0
    else match ParseHexInt(s)
      case Some(n) => n
      case None => 0
  }

  /** A size field of hex digits, as objdump prints one, is read as its value. */
  lemma SizeOfHexField(s: string)
    requires s != "" && AllHex(s)
    ensures SizeValue(s) == HexValue(s)
  {
    HexIntOfDigits(s);
  }

  // ---------------------------------------------------------------------
  // parse_symbols
  // ---------------------------------------------------------------------

  datatype Symbol = Symbol(address: nat, addressStr: string, flags: string, kind: string,
                           section: string, size: int, sizeStr: string, name: string, lineNum: nat)

  /**
   One line of the table: at least five fields, the first 16 hex digits.
   Five fields carry no type; with six or more the type is the third and
   the name is every field from the sixth on, joined by single spaces.
   */
  function ParseSymbol(line: string, lineNum: nat): (r: Option<Symbol>)
    ensures r.Some? <==> |Fields(line)| >= 5 && IsAddressField(Fields(line)[0])
    ensures r.Some? ==> (r.value.lineNum == lineNum && IsAddressField(r.value.addressStr)
      && r.value.address == HexValue(r.value.addressStr))
  {
    var f := Fields(line);
    if |f| < 5 || !IsAddressField(f[0]) then None
    else if |f| == 5 then
      Some(Symbol(HexValue(f[0]), f[0], f[1], "", f[2], SizeValue(f[3]), f[3], f[4], lineNum))
    else
      Some(Symbol(HexValue(f[0]), f[0], f[1], f[2], f[3], SizeValue(f[4]), f[4], JoinFields(f[5..]), lineNum))
  }

  /** The fields objdump prints for one symbol (the type column may be empty). */
  datatype Row = Row(address: string, flags: string, kind: string, section: string, size: string, name: string)

  predicate RowOk(row: Row) {
    IsAddressField(row.address) && IsField(row.flags) && (row.kind == "" || IsField(row.kind))
    && IsField(row.section) && IsField(row.size) && IsField(row.name)
  }

  function RowFields(row: Row): seq<string> {
    if row.kind == "" then [row.address, row.flags, row.section, row.size, row.name]
    else [row.address, row.flags, row.kind, row.section, row.size, row.name]
  }

  /** A row printed with single spaces parses back to its fields, the address and size read as hex. */
  lemma ParseRow(row: Row, lineNum: nat)
    requires RowOk(row)
    ensures ParseSymbol(JoinFields(RowFields(row)), lineNum) ==
      Some(Symbol(HexValue(row.address), row.address, row.flags, row.kind, row.section,
                  SizeValue(row.size), row.size, row.name, lineNum))
  {
    var f := RowFields(row);
    assert IsField(row.address);
    assert AllFields(f);
    SplitJoin(f);
    if |f| == 6 {
      assert f[5..] == [row.name];
    }
  }

  /** Every line parsed on its own, numbered from 1. */
  function ParseEach(lines: seq<string>): (parsed: seq<Option<Symbol>>)
    ensures |parsed| == |lines|
    ensures forall j :: 0 <= j < |lines| ==> parsed[j] == ParseSymbol(lines[j], j + 1)
  {
    seq(|lines|, j requires 0 <= j < |lines| => ParseSymbol(lines[j], j + 1))
  }

  lemma ParseEachNumbered(lines: seq<string>)
    ensures Numbered(ParseEach(lines))
  {
    var parsed := ParseEach(lines);
    forall j | 0 <= j < |parsed| && parsed[j].Some?
      ensures parsed[j].value.lineNum == j + 1
    {
      assert parsed[j] == ParseSymbol(lines[j], j + 1);
    }
  }

  /** Each entry that parsed carries its own position as line number. */
  predicate Numbered(parsed: seq<Option<Symbol>>) {
    forall j :: 0 <= j < |parsed| && parsed[j].Some? ==> parsed[j].value.lineNum == j + 1
  }

  /** `sym` is the entry at line `sym.lineNum`. */
  predicate CameFrom(parsed: seq<Option<Symbol>>, sym: Symbol) {
    1 <= sym.lineNum <= |parsed| && parsed[sym.lineNum - 1] == Some(sym)
  }

  /** The loop of parse_symbols from position `i` on: the lines that parsed, in order. */
  function CollectFrom(parsed: seq<Option<Symbol>>, i: nat): (r: seq<Symbol>)
    requires i <= |parsed| && Numbered(parsed)
    ensures forall k :: 0 <= k < |r| ==> CameFrom(parsed, r[k]) && i < r[k].lineNum
    decreases |parsed| - i
  {
    if i == |parsed| then []
    else
      var rest := CollectFrom(parsed, i + 1);
      if parsed[i].Some? then
        var r := [parsed[i].value] + rest;
        assert forall k :: 0 < k < |r| ==> r[k] == rest[k - 1];
        r
      else rest
  }

  /** Line numbers strictly increase along `r`. */
  predicate InLineOrder(r: seq<Symbol>) {
    forall k, l :: 0 <= k < l < |r| ==> r[k].lineNum < r[l].lineNum
  }

  /** The symbols come in line order. */
  lemma {:induction false} CollectOrdered(parsed: seq<Option<Symbol>>, i: nat)
    requires i <= |parsed| && Numbered(parsed)
    ensures InLineOrder(CollectFrom(parsed, i))
    decreases |parsed| - i
  {
    if i < |parsed| {
      CollectOrdered(parsed, i + 1);
      var rest := CollectFrom(parsed, i + 1);
      if parsed[i].Some? {
        var r := [parsed[i].value] + rest;
        assert CollectFrom(parsed, i) == r;
        assert InLineOrder(r) by {
          assert r[0].lineNum == i + 1;
          forall k, l | 0 <= k < l < |r| ensures r[k].lineNum < r[l].lineNum {
            assert r[l] == rest[l - 1];
            if k > 0 {
              assert r[k] == rest[k - 1];
            }
          }
        }
      }
    }
  }

  /** No line that parsed is missed. */
  lemma {:induction false} CollectComplete(parsed: seq<Option<Symbol>>, i: nat)
    requires i <= |parsed| && Numbered(parsed)
    ensures forall j :: i <= j < |parsed| && parsed[j].Some? ==> parsed[j].value in CollectFrom(parsed, i)
    decreases |parsed| - i
  {
    if i < |parsed| {
      CollectComplete(parsed, i + 1);
    }
  }

  /** The entries that parsed, in order, each once. */
  function Collect(parsed: seq<Option<Symbol>>): (r: seq<Symbol>)
    requires Numbered(parsed)
    ensures |r| <= |parsed|
    ensures forall k :: 0 <= k < |r| ==> CameFrom(parsed, r[k])
    ensures InLineOrder(r)
    ensures forall j :: 0 <= j < |parsed| && parsed[j].Some? ==> parsed[j].value in r
  {
    var r := CollectFrom(parsed, 0);
    CollectOrdered(parsed, 0);
    CollectComplete(parsed, 0);
    forall k | 0 <= k < |r| ensures 1 <= r[k].lineNum <= |parsed| {
      assert CameFrom(parsed, r[k]);
    }
    LineNumsBound(r, |parsed|);
    r
  }

  /**
   parse_symbols: a symbol for each line that parses, in line order,
   numbered by its line (counting from 1); no line that parses is missed.
   */
  function ParseSymbols(lines: seq<string>): (r: seq<Symbol>)
    ensures |r| <= |lines|
    ensures forall k :: 0 <= k < |r| ==> CameFrom(ParseEach(lines), r[k])
    ensures forall k, l :: 0 <= k < l < |r| ==> r[k].lineNum < r[l].lineNum
    ensures forall j :: 0 <= j < |lines| && ParseEach(lines)[j].Some? ==> ParseEach(lines)[j].value in r
  {
    ParseEachNumbered(lines);
    Collect(ParseEach(lines))
  }

  /** Strictly increasing line numbers between 1 and n leave room for at most n symbols. */
  lemma {:induction false} LineNumsBound(r: seq<Symbol>, n: nat)
    requires forall k :: 0 <= k < |r| ==> 1 <= r[k].lineNum <= n
    requires InLineOrder(r)
    ensures |r| <= n
  {
    if |r| > 0 {
      var last := r[|r| - 1];
      LineNumsBound(r[..|r| - 1], last.lineNum - 1);
    }
  }

  // ---------------------------------------------------------------------
  // Filters and sorting
  // ---------------------------------------------------------------------

  /** The symbols satisfying `p`, in order. */
  function Keep(syms: seq<Symbol>, p: Symbol -> bool): (r: seq<Symbol>)
    ensures |r| <= |syms|
    ensures forall x: Symbol :: x in r <==> x in syms && p(x)
  {
    if |syms| == 0 then []
    else
      var rest := Keep(syms[1..], p);
      assert forall x :: x in syms <==> x == syms[0] || x in syms[1..];
      if p(syms[0]) then [syms[0]] + rest else rest
  }

  /** filter_by_section: the symbols whose section name contains `sec`. */
  function FilterBySection(syms: seq<Symbol>, sec: string): (r: seq<Symbol>)
    ensures forall x: Symbol :: x in r <==> x in syms && HasSubstring(x.section, sec)
  {
    Keep(syms, (x: Symbol) => HasSubstring(x.section, sec))
  }

  /** filter_by_flags: the symbols whose flags contain `flag`. */
  function FilterByFlags(syms: seq<Symbol>, flag: string): (r: seq<Symbol>)
    ensures forall x: Symbol :: x in r <==> x in syms && HasSubstring(x.flags, flag)
  {
    Keep(syms, (x: Symbol) => HasSubstring(x.flags, flag))
  }

  /** filter_by_type: the symbols whose type contains `kind`. */
  function FilterByType(syms: seq<Symbol>, kind: string): (r: seq<Symbol>)
    ensures forall x: Symbol :: x in r <==> x in syms && HasSubstring(x.kind, kind)
  {
    Keep(syms, (x: Symbol) => HasSubstring(x.kind, kind))
  }

  /** get_functions, get_objects, get_global_symbols and get_local_symbols: one flag letter each. */
  function WithFlag(syms: seq<Symbol>, letter: char): (r: seq<Symbol>)
    ensures forall x: Symbol :: x in r <==> x in syms && letter in x.flags
  {
    var r := FilterByFlags(syms, [letter]);
    forall x: Symbol ensures HasSubstring(x.flags, [letter]) <==> letter in x.flags {
      LetterSubstring(x.flags, letter);
    }
    r
  }

  lemma LetterSubstring(s: string, c: char)
    ensures HasSubstring(s, [c]) <==> c in s
  {
    if c in s {
      var i :| 0 <= i < |s| && s[i] == c;
      assert OccursAt(s, [c], i);
    }
    if HasSubstring(s, [c]) {
      var i: nat :| OccursAt(s, [c], i);
      assert s[i] == s[i..i + 1][0];
    }
  }

  predicate SortedByAddress(s: seq<Symbol>) {
    forall k, l :: 0 <= k < l < |s| ==> s[k].address <= s[l].address
  }

  /** `x` placed before the first symbol with a higher address. */
  function Insert(x: Symbol, s: seq<Symbol>): (r: seq<Symbol>)
    requires SortedByAddress(s)
    ensures |r| == |s| + 1 && (r[0] == x || (|s| > 0 && r[0] == s[0]))
    ensures SortedByAddress(r) && multiset(r) == multiset(s) + multiset{x}
  {
    if |s| == 0 || x.address <= s[0].address then [x] + s
    else
      var rest := Insert(x, s[1..]);
      assert s == [s[0]] + s[1..];
      ConsSorted(s[0], rest);
      [s[0]] + rest
  }

  /** A symbol no higher than the head of a sorted list keeps it sorted when put in front. */
  lemma ConsSorted(h: Symbol, rest: seq<Symbol>)
    requires SortedByAddress(rest) && (|rest| > 0 ==> h.address <= rest[0].address)
    ensures SortedByAddress([h] + rest) && multiset([h] + rest) == multiset{h} + multiset(rest)
  {
    var r := [h] + rest;
    assert forall l :: 0 < l < |r| ==> r[l] == rest[l - 1];
  }

  /** sort_by_address: the same symbols, ascending by address. */
  function SortByAddress(s: seq<Symbol>): (r: seq<Symbol>)
    ensures SortedByAddress(r) && multiset(r) == multiset(s)
  {
    if |s| == 0 then []
    else
      assert s == [s[0]] + s[1..];
      Insert(s[0], SortByAddress(s[1..]))
  }

  // ---------------------------------------------------------------------
  // analyze_memory_layout
  // ---------------------------------------------------------------------

  datatype SectionInfo = SectionInfo(minAddr: nat, maxAddr: nat, count: nat, sizeSum: int)

  /** How many of the symbols lie in `sec`. */
  function CountIn(syms: seq<Symbol>, sec: string): nat {
    if |syms| == 0 then 0
    else CountIn(syms[..|syms| - 1], sec) + (if syms[|syms| - 1].section == sec then 1 else 0)
  }

  /** The sizes of the symbols in `sec`, added up. */
  function SizeSumIn(syms: seq<Symbol>, sec: string): int {
    if |syms| == 0 then 0
    else SizeSumIn(syms[..|syms| - 1], sec) + (if syms[|syms| - 1].section == sec then syms[|syms| - 1].size else 0)
  }

  function SectionsOf(syms: seq<Symbol>): set<string> {
    set k | 0 <= k < |syms| :: syms[k].section
  }

  /** One symbol folded into the per-section table. */
  function AddSymbol(m: map<string, SectionInfo>, s: Symbol): map<string, SectionInfo> {
    if s.section !in m then m[s.section := SectionInfo(s.address, s.address, 1, s.size)]
    else
      var i := m[s.section];
      m[s.section := SectionInfo(Min(i.minAddr, s.address), if i.maxAddr >= s.address then i.maxAddr else s.address,
                                 i.count + 1, i.sizeSum + s.size)]
  }

  /**
   `m` summarises `syms`: one entry per section that occurs, holding an
   address range that covers every symbol in it, how many symbols it has
   and their sizes added up.
   */
  predicate Summarises(syms: seq<Symbol>, m: map<string, SectionInfo>) {
    m.Keys == SectionsOf(syms)
    && (forall k :: 0 <= k < |syms| ==>
          (syms[k].section in m && m[syms[k].section].minAddr <= syms[k].address <= m[syms[k].section].maxAddr))
    && (forall sec :: sec in m ==>
          (m[sec].minAddr <= m[sec].maxAddr && m[sec].count == CountIn(syms, sec) && m[sec].sizeSum == SizeSumIn(syms, sec)))
  }

  /** The first loop of analyze_memory_layout. */
  function Layout(syms: seq<Symbol>): (m: map<string, SectionInfo>)
    ensures Summarises(syms, m)
  {
    if |syms| == 0 then map[]
    else
      var init := syms[..|syms| - 1];
      var m0 := Layout(init);
      AddSymbolStep(init, syms[|syms| - 1], m0);
      assert init + [syms[|syms| - 1]] == syms;
      AddSymbol(m0, syms[|syms| - 1])
  }

  /** Folding one more symbol in keeps the summary exact. */
  lemma AddSymbolStep(init: seq<Symbol>, s: Symbol, m0: map<string, SectionInfo>)
    requires Summarises(init, m0)
    ensures Summarises(init + [s], AddSymbol(m0, s))
  {
    var syms := init + [s];
    var m := AddSymbol(m0, s);
    assert syms[..|syms| - 1] == init && syms[|syms| - 1] == s;
    assert SectionsOf(syms) == SectionsOf(init) + {s.section} by {
      assert forall k :: 0 <= k < |init| ==> syms[k] == init[k];
    }
    forall k | 0 <= k < |syms|
      ensures syms[k].section in m && m[syms[k].section].minAddr <= syms[k].address <= m[syms[k].section].maxAddr
    {
      if k < |init| {
        assert syms[k] == init[k];
      }
    }
    forall sec | sec in m
      ensures m[sec].count == CountIn(syms, sec) && m[sec].sizeSum == SizeSumIn(syms, sec)
    {
      assert CountIn(syms, sec) == CountIn(init, sec) + (if s.section == sec then 1 else 0);
      assert SizeSumIn(syms, sec) == SizeSumIn(init, sec) + (if s.section == sec then s.size else 0);
      if sec !in m0 {
        assert sec == s.section;
        CountAbsent(init, sec);
      }
    }
  }

  /** A section no symbol lies in has no symbols and no size. */
  lemma {:induction false} CountAbsent(syms: seq<Symbol>, sec: string)
    requires sec !in SectionsOf(syms)
    ensures CountIn(syms, sec) == 0 && SizeSumIn(syms, sec) == 0
  {
    if |syms| > 0 {
      var init := syms[..|syms| - 1];
      assert SectionsOf(init) <= SectionsOf(syms) by {
        assert forall k :: 0 <= k < |init| ==> init[k] == syms[k];
      }
      assert syms[|syms| - 1].section in SectionsOf(syms);
      CountAbsent(init, sec);
    }
  }

  /** Each section's lowest and highest addresses belong to symbols of that section. */
  lemma {:induction false} LayoutAttained(syms: seq<Symbol>, sec: string)
    requires sec in Layout(syms)
    ensures exists k :: 0 <= k < |syms| && syms[k].section == sec && syms[k].address == Layout(syms)[sec].minAddr
    ensures exists k :: 0 <= k < |syms| && syms[k].section == sec && syms[k].address == Layout(syms)[sec].maxAddr
  {
    var init := syms[..|syms| - 1];
    var s := syms[|syms| - 1];
    var n := |syms| - 1;
    assert forall k :: 0 <= k < |init| ==> syms[k] == init[k];
    if sec in Layout(init) {
      LayoutAttained(init, sec);
    }
  }

  /** The final loop of analyze_memory_layout: the address span, or the sizes added up when the span is one address. */
  function ActualSize(i: SectionInfo): (size: int)
    requires i.minAddr <= i.maxAddr
  {
    if i.minAddr == i.maxAddr then i.sizeSum else i.maxAddr - i.minAddr
  }

  /** analyze_memory_layout: every section with its summary and actual size. */
  function MemoryLayout(syms: seq<Symbol>): (r: map<string, (SectionInfo, int)>)
    ensures r.Keys == SectionsOf(syms)
    ensures forall sec :: sec in r ==> r[sec].0 == Layout(syms)[sec]
  {
    var m := Layout(syms);
    map sec | sec in m :: (m[sec], ActualSize(m[sec]))
  }

  /**
   A section whose symbols all sit at one address is as large as their
   sizes added up; otherwise it spans from its lowest to its highest
   symbol address.
   */
  lemma ActualSizeRule(syms: seq<Symbol>, sec: string)
    requires sec in SectionsOf(syms)
    ensures var i := MemoryLayout(syms)[sec].0;
      (forall k, l :: 0 <= k < |syms| && 0 <= l < |syms| && syms[k].section == sec && syms[l].section == sec
         ==> syms[k].address == syms[l].address)
      ==> MemoryLayout(syms)[sec].1 == SizeSumIn(syms, sec)
    ensures var i := MemoryLayout(syms)[sec].0;
      (exists k, l :: 0 <= k < |syms| && 0 <= l < |syms| && syms[k].section == sec && syms[l].section == sec
         && syms[k].address != syms[l].address)
      ==> MemoryLayout(syms)[sec].1 == i.maxAddr - i.minAddr
  {
    LayoutAttained(syms, sec);
  }
}
