/** Loading the initial files (kernel/src/vfs.rs, populate_from_initramfs): a round trip with printing. */
module Initramfs {
  import opened Options
  import opened Bytes
  import opened Text
  import Compress
  import Utf8

  const HEADER := "FILE:"

  // ------------------------------------------------------------- lines

  function StripReturn(line: string): string {
    if line != [] && line[|line| - 1] == '\r' then line[..|line| - 1] else line
  }

  /** `str::lines`: a final newline ends the last line, and a carriage return before a newline is dropped. */
  function Lines(text: string): seq<string>
    decreases |text|
  {
    var i := IndexOf(text, '\n');
    if text == [] then []
    else if i == |text| then [text]
    else [StripReturn(text[..i])] + Lines(text[i + 1..])
  }

  /** `char::is_whitespace`: the Unicode White_Space property. */
  predicate IsWhitespace(c: char) {
    var n := c as int;
    0x9 <= n <= 0xD || n == 0x20 || n == 0x85 || n == 0xA0 || n == 0x1680 || 0x2000 <= n <= 0x200A ||
    n == 0x2028 || n == 0x2029 || n == 0x202F || n == 0x205F || n == 0x3000
  }

  function TrimStart(s: string): string {
    if s != [] && IsWhitespace(s[0]) then TrimStart(s[1..]) else s
  }

  function TrimEnd(s: string): string {
    if s != [] && IsWhitespace(s[|s| - 1]) then TrimEnd(s[..|s| - 1]) else s
  }

  function Trim(s: string): string { TrimEnd(TrimStart(s)) }

  // ------------------------------------------------------------- parsing

  /** The loop's variables: the file being read, and the files finished so far. */
  datatype Parse = Parse(path: string, content: string, files: map<string, seq<Byte>>)

  function Finish(p: Parse): map<string, seq<Byte>> {
    if p.path != "" then p.files[p.path := Utf8.Encode(p.content)] else p.files
  }

  function ParseLine(p: Parse, line: string): Parse {
    if HEADER <= line then Parse(Trim(line[|HEADER|..]), "", Finish(p))
    else p.(content := (if p.content == "" then "" else p.content + "\n") + line)
  }

  function ParseLines(p: Parse, lines: seq<string>): Parse
    decreases |lines|
  {
    if lines == [] then p else ParseLines(ParseLine(p, lines[0]), lines[1..])
  }

  /** The files that `populate_from_initramfs` adds to, or replaces in, an existing RAMFS. */
  function Load(files: map<string, seq<Byte>>, text: string): map<string, seq<Byte>> {
    Finish(ParseLines(Parse("", "", files), Lines(text)))
  }

  /** Bytes that are not UTF-8 are read as the empty text. */
  function Populate(files: map<string, seq<Byte>>, data: seq<Byte>): map<string, seq<Byte>> {
    match Utf8.Decode(data)
    case None => Load(files, "")
    case Some(text) => Load(files, text)
  }

  /** The loop over lines. */
  method PopulateFiles(files: map<string, seq<Byte>>, data: seq<Byte>) returns (r: map<string, seq<Byte>>)
    ensures r == Populate(files, data)
  {
    var decoded := Utf8.Decode(data);
    var text := if decoded.Some? then decoded.value else "";
    var lines := Lines(text);
    r := files;
    var currentPath, currentContent := "", "";
    var i := 0;
    assert lines[0..] == lines;
    while i < |lines|
      invariant 0 <= i <= |lines|
      invariant ParseLines(Parse(currentPath, currentContent, r), lines[i..]) ==
                ParseLines(Parse("", "", files), lines)
    {
      hide Trim;
      assert lines[i..][1..] == lines[i + 1..];
      var line := lines[i];
      if HEADER <= line {
        if currentPath != "" {
          r := r[currentPath := Utf8.Encode(currentContent)];
        }
        currentPath := Trim(line[|HEADER|..]);
        currentContent := "";
      } else {
        if currentContent != "" {
          currentContent := currentContent + "\n";
        }
        currentContent := currentContent + line;
      }
      i := i + 1;
    }
    if currentPath != "" {
      r := r[currentPath := Utf8.Encode(currentContent)];
    }
  }

  // ------------------------------------------------------------- printing

  datatype File = File(path: string, content: string)

  function PrintFile(f: File): string {
    HEADER + f.path + "\n" + f.content + "\n"
  }

  function Print(fs: seq<File>): string {
    if fs == [] then "" else PrintFile(fs[0]) + Print(fs[1..])
  }

  /** A path that survives: one trimmed, non-empty line. */
  predicate GoodPath(path: string) {
    path != "" && '\n' !in path && Trim(path) == path
  }

  /** Content that survives: no line ends in a carriage return, it does not start with a newline, and no line looks
      like a header. */
  predicate GoodContent(content: string) {
    NoReturns(Pieces(content)) && (content != "" ==> content[0] != '\n') && NoHeaders(Pieces(content))
  }

  predicate NoReturns(lines: seq<string>) {
    forall i | 0 <= i < |lines| :: StripReturn(lines[i]) == lines[i]
  }

  predicate NoHeaders(lines: seq<string>) {
    forall i | 0 <= i < |lines| :: !(HEADER <= lines[i])
  }

  /** The pieces between newlines; there is always at least one. */
  function Pieces(text: string): (ps: seq<string>)
    ensures ps != []
    decreases |text|
  {
    var i := IndexOf(text, '\n');
    if i == |text| then [text] else [text[..i]] + Pieces(text[i + 1..])
  }

  // ------------------------------------------------------------- the proof

  lemma {:induction false} ParseConcat(p: Parse, a: seq<string>, b: seq<string>)
    ensures ParseLines(p, a + b) == ParseLines(ParseLines(p, a), b)
    decreases |a|
  {
    if a == [] {
      assert a + b == b;
    } else {
      assert (a + b)[0] == a[0] && (a + b)[1..] == a[1..] + b;
      ParseConcat(ParseLine(p, a[0]), a[1..], b);
    }
  }

  /** A line without newline at its start is cut off whole. */
  lemma LineCut(line: string, rest: string)
    requires '\n' !in line
    ensures Lines(line + "\n" + rest) == [StripReturn(line)] + Lines(rest)
  {
    var t := line + "\n" + rest;
    IndexOfPiece(line, rest, '\n');
    hide IndexOf;
    assert t[..|line|] == line && t[|line| + 1..] == rest;
  }

  lemma Regroup(piece: string, tail: string, rest: string)
    ensures (piece + "\n" + tail) + "\n" + rest == piece + "\n" + (tail + "\n" + rest)
  {}

  function StripReturns(lines: seq<string>): (r: seq<string>)
    ensures |r| == |lines| && forall i | 0 <= i < |r| :: r[i] == StripReturn(lines[i])
  {
    seq(|lines|, i requires 0 <= i < |lines| => StripReturn(lines[i]))
  }

  /** Content ended by a newline gives its pieces as lines, each without a final carriage return. */
  lemma {:induction false} ContentLines(content: string, rest: string)
    ensures Lines(content + "\n" + rest) == StripReturns(Pieces(content)) + Lines(rest)
    decreases |content|
  {
    hide IndexOf, Lines, StripReturn;
    var i := IndexOf(content, '\n');
    var piece := content[..i];
    if i == |content| {
      assert piece == content;
      LineCut(content, rest);
      assert StripReturns([content]) == [StripReturn(content)];
    } else {
      var tail := content[i + 1..];
      assert content == piece + "\n" + tail;
      Regroup(piece, tail, rest);
      LineCut(piece, tail + "\n" + rest);
      ContentLines(tail, rest);
      assert StripReturns([piece] + Pieces(tail)) == [StripReturn(piece)] + StripReturns(Pieces(tail));
    }
  }

  /** A last line without newline is a line too, and keeps its carriage return. */
  lemma LastLine(content: string, line: string)
    requires line != "" && '\n' !in line
    ensures Lines(content + "\n" + line) == StripReturns(Pieces(content)) + [line]
  {
    ContentLines(content, line);
    assert Lines(line) == [line];
  }

  /** Reading pieces after some content joins them with newlines. */
  lemma {:induction false} ReadPieces(p: Parse, text: string)
    requires p.content != "" && NoHeaders(Pieces(text))
    ensures ParseLines(p, Pieces(text)) == p.(content := p.content + "\n" + text)
    decreases |text|
  {
    var i := IndexOf(text, '\n');
    var ps := Pieces(text);
    hide IndexOf;
    var p1 := ParseLine(p, ps[0]);
    assert !(HEADER <= ps[0]);
    if i == |text| {
      assert ps[1..] == [];
    } else {
      assert ps[1..] == Pieces(text[i + 1..]);
      ReadPieces(p1, text[i + 1..]);
      assert p1.content + "\n" + text[i + 1..] == p.content + "\n" + text by {
        assert text == text[..i] + "\n" + text[i + 1..];
      }
    }
  }

  /** Reading a good content from empty gives it back. */
  lemma ReadContent(p: Parse, content: string)
    requires p.content == "" && GoodContent(content)
    ensures ParseLines(p, Pieces(content)) == p.(content := content)
  {
    var i := IndexOf(content, '\n');
    var ps := Pieces(content);
    hide IndexOf, NoReturns;
    var p1 := ParseLine(p, ps[0]);
    assert !(HEADER <= ps[0]);
    assert p1 == p.(content := ps[0]) by { assert "" + ps[0] == ps[0]; }
    assert ParseLines(p, ps) == ParseLines(p1, ps[1..]);
    hide ParseLine;
    if i == |content| {
      assert ps == [content] && ps[1..] == [];
      assert ParseLines(p1, []) == p1;
    } else {
      assert ps[0] == content[..i] != "";
      assert ps[1..] == Pieces(content[i + 1..]);
      hide Pieces, ParseLines;
      ReadPieces(p1, content[i + 1..]);
      assert content == content[..i] + "\n" + content[i + 1..];
    }
  }

  lemma HeaderLine(path: string)
    requires GoodPath(path)
    ensures StripReturn(HEADER + path) == HEADER + path && '\n' !in HEADER + path
    ensures (HEADER + path)[|HEADER|..] == path
  {
    TrimmedEnd(path);
  }

  lemma {:induction false} TrimEndShorter(s: string)
    ensures |TrimEnd(s)| <= |s| && (s != [] && IsWhitespace(s[|s| - 1]) ==> |TrimEnd(s)| < |s|)
    decreases |s|
  {
    if s != [] && IsWhitespace(s[|s| - 1]) {
      TrimEndShorter(s[..|s| - 1]);
    }
  }

  lemma {:induction false} TrimStartShorter(s: string)
    ensures |TrimStart(s)| <= |s| && (|TrimStart(s)| == |s| ==> TrimStart(s) == s)
    decreases |s|
  {
    if s != [] && IsWhitespace(s[0]) {
      TrimStartShorter(s[1..]);
    }
  }

  lemma TrimmedEnd(path: string)
    requires path != "" && Trim(path) == path
    ensures !IsWhitespace(path[|path| - 1])
  {
    TrimStartShorter(path);
    TrimEndShorter(TrimStart(path));
  }

  /** A printed file as lines: its header finishes the previous file, then come its lines without final returns. */
  lemma FileLines(p: Parse, f: File, rest: string)
    requires GoodPath(f.path)
    ensures ParseLines(p, Lines(PrintFile(f) + rest)) == ParseLines(AfterFile(p, f), Lines(rest))
  {
    var head, ls := HEADER + f.path, StripReturns(Pieces(f.content));
    var body := f.content + "\n" + rest;
    assert PrintFile(f) + rest == head + "\n" + body;
    HeaderLine(f.path);
    LineCut(head, body);
    ContentLines(f.content, rest);
    assert Lines(PrintFile(f) + rest) == [head] + (ls + Lines(rest));
    hide Lines, Pieces, PrintFile, Trim, IndexOf;
    ParseConcat(p, [head], ls + Lines(rest));
    assert [head][1..] == [];
    assert ParseLines(p, [head]) == Parse(f.path, "", Finish(p));
    ParseConcat(Parse(f.path, "", Finish(p)), ls, Lines(rest));
  }

  /** The loop's variables after the lines of one printed file. */
  function AfterFile(p: Parse, f: File): Parse {
    ParseLines(Parse(f.path, "", Finish(p)), StripReturns(Pieces(f.content)))
  }

  /** After a good file, that file is the current one. */
  lemma AfterGoodFile(p: Parse, f: File)
    requires GoodContent(f.content)
    ensures AfterFile(p, f) == Parse(f.path, f.content, Finish(p))
  {
    assert StripReturns(Pieces(f.content)) == Pieces(f.content);
    hide Pieces, GoodContent, ParseLines;
    ReadContent(Parse(f.path, "", Finish(p)), f.content);
  }

  /** The files as a map, later entries winning. */
  function ToMap(files: map<string, seq<Byte>>, fs: seq<File>): map<string, seq<Byte>>
    decreases |fs|
  {
    if fs == [] then files else ToMap(files[fs[0].path := Utf8.Encode(fs[0].content)], fs[1..])
  }

  /** The files have distinct good paths. */
  ghost predicate ProperPaths(fs: seq<File>) {
    && (forall i | 0 <= i < |fs| :: GoodPath(fs[i].path))
    && (forall i, j | 0 <= i < j < |fs| :: fs[i].path != fs[j].path)
  }

  ghost predicate GoodContents(fs: seq<File>) {
    forall i | 0 <= i < |fs| :: GoodContent(fs[i].content)
  }

  lemma TailProper(fs: seq<File>)
    requires ProperPaths(fs) && fs != []
    ensures ProperPaths(fs[1..]) && GoodPath(fs[0].path)
    ensures GoodContents(fs) <==> GoodContent(fs[0].content) && GoodContents(fs[1..])
  {
    hide GoodPath, GoodContent;
    assert forall i | 0 <= i < |fs[1..]| :: fs[1..][i] == fs[i + 1];
    assert forall i | 1 <= i < |fs| :: fs[i] == fs[1..][i - 1];
  }

  lemma {:induction false} ReadAll(p: Parse, fs: seq<File>)
    requires ProperPaths(fs) && GoodContents(fs)
    ensures Finish(ParseLines(p, Lines(Print(fs)))) == ToMap(Finish(p), fs)
    decreases |fs|
  {
    if fs != [] {
      hide GoodPath, GoodContent, ProperPaths, GoodContents, Lines, PrintFile, AfterFile;
      TailProper(fs);
      FileLines(p, fs[0], Print(fs[1..]));
      AfterGoodFile(p, fs[0]);
      assert fs[0].path != "" by { GoodPathNonEmpty(fs[0].path); }
      ReadAll(Parse(fs[0].path, fs[0].content, Finish(p)), fs[1..]);
    }
  }

  lemma GoodPathNonEmpty(path: string)
    requires GoodPath(path)
    ensures path != ""
  {}

  /** With distinct paths the map holds exactly the printed files. */
  lemma {:induction false} ToMapExact(files: map<string, seq<Byte>>, fs: seq<File>)
    requires forall i, j | 0 <= i < j < |fs| :: fs[i].path != fs[j].path
    ensures forall i | 0 <= i < |fs| ::
              fs[i].path in ToMap(files, fs) && ToMap(files, fs)[fs[i].path] == Utf8.Encode(fs[i].content)
    ensures forall p :: p in ToMap(files, fs) ==> p in files || exists i | 0 <= i < |fs| :: fs[i].path == p
    ensures forall p <- files :: (forall i | 0 <= i < |fs| :: fs[i].path != p) ==>
              p in ToMap(files, fs) && ToMap(files, fs)[p] == files[p]
    decreases |fs|
  {
    if fs != [] {
      hide Utf8.Encode;
      ToMapExact(files[fs[0].path := Utf8.Encode(fs[0].content)], fs[1..]);
      assert forall i | 0 <= i < |fs[1..]| :: fs[1..][i] == fs[i + 1];
    }
  }

  ghost predicate Restored(loaded: map<string, seq<Byte>>, f: File) {
    f.path in loaded && loaded[f.path] == Utf8.Encode(f.content)
  }

  /** Printing files, compressing, decompressing and loading restores exactly those files; files with other paths stay
      as they were. */
  lemma LoadRestores(files: map<string, seq<Byte>>, fs: seq<File>)
    requires ProperPaths(fs) && GoodContents(fs)
    ensures var data := Utf8.Encode(Print(fs));
            && Compress.Decode(Compress.Encode(data)) == Some(data)
            && var loaded := Populate(files, data);
               && (forall i | 0 <= i < |fs| :: Restored(loaded, fs[i]))
               && (forall p <- loaded :: p in files || exists i | 0 <= i < |fs| :: fs[i].path == p)
               && (forall p <- files :: (forall i | 0 <= i < |fs| :: fs[i].path != p) ==>
                     p in loaded && loaded[p] == files[p])
  {
    var text := Print(fs);
    Compress.RoundTrip(Utf8.Encode(text));
    Utf8.RoundTrip(text);
    hide Utf8.Encode, Lines, Print;
    ReadAll(Parse("", "", files), fs);
    ToMapExact(files, fs);
  }

  /** Lines before the first header belong to no file. */
  lemma {:induction false} NothingBeforeHeader(p: Parse, lines: seq<string>)
    requires p.path == "" && NoHeaders(lines)
    ensures Finish(ParseLines(p, lines)) == p.files
    decreases |lines|
  {
    if lines != [] {
      NothingBeforeHeader(ParseLine(p, lines[0]), lines[1..]);
    }
  }

  predicate Blank(s: string) {
    forall i | 0 <= i < |s| :: IsWhitespace(s[i])
  }

  /** Trimming a text that does not begin or end in whitespace, with whitespace around it, gives that text. */
  lemma TrimPadded(a: string, m: string, b: string)
    requires Blank(a) && Blank(b) && m != "" && !IsWhitespace(m[0]) && !IsWhitespace(m[|m| - 1])
    ensures Trim(a + m + b) == m
  {
    TrimStartPadded(a, m + b);
    assert a + m + b == a + (m + b);
    TrimEndPadded(m, b);
  }

  lemma {:induction false} TrimStartPadded(a: string, m: string)
    requires Blank(a) && m != "" && !IsWhitespace(m[0])
    ensures TrimStart(a + m) == m
  {
    if a == "" {
      assert a + m == m;
    } else {
      assert (a + m)[1..] == a[1..] + m;
      TrimStartPadded(a[1..], m);
    }
  }

  lemma {:induction false} TrimEndPadded(m: string, b: string)
    requires Blank(b) && m != "" && !IsWhitespace(m[|m| - 1])
    ensures TrimEnd(m + b) == m
  {
    if b == "" {
      assert m + b == m;
    } else {
      var n := |b| - 1;
      assert (m + b)[..|m + b| - 1] == m + b[..n];
      TrimEndPadded(m, b[..n]);
    }
  }

  /** A header line begins a new file, with blanks around its path ignored. */
  lemma PaddedHeader(p: Parse, a: string, path: string, b: string)
    requires Blank(a) && Blank(b) && path != "" && !IsWhitespace(path[0]) && !IsWhitespace(path[|path| - 1])
    ensures ParseLine(p, "FILE:" + (a + path + b)) == Parse(path, "", Finish(p))
  {
    TrimPadded(a, path, b);
    hide Trim;
    assert ("FILE:" + (a + path + b))[5..] == a + path + b;
  }

  /** Data that is no UTF-8 text loads nothing. */
  lemma NoTextNoFiles(files: map<string, seq<Byte>>, data: seq<Byte>)
    requires forall s :: Utf8.Encode(s) != data
    ensures Populate(files, data) == files
  {
    Utf8.OnlyEncodings(data);
    assert Lines("") == [];
  }

  /** What `trim` leaves has no whitespace at its ends, and all it takes away is whitespace. */
  lemma TrimExact(s: string) returns (a: string, b: string)
    ensures s == a + Trim(s) + b && Blank(a) && Blank(b)
    ensures Trim(s) != "" ==> !IsWhitespace(Trim(s)[0]) && !IsWhitespace(Trim(s)[|Trim(s)| - 1])
  {
    a := TrimStartExact(s);
    b := TrimEndExact(TrimStart(s));
    var m := Trim(s);
    assert TrimStart(s) == m + b;
    assert m != "" ==> m[0] == TrimStart(s)[0];
  }

  lemma {:induction false} TrimStartExact(s: string) returns (a: string)
    ensures s == a + TrimStart(s) && Blank(a)
    ensures TrimStart(s) != "" ==> !IsWhitespace(TrimStart(s)[0])
  {
    a := "";
    if s != [] && IsWhitespace(s[0]) {
      var r := TrimStartExact(s[1..]);
      a := [s[0]] + r;
    }
  }

  lemma {:induction false} TrimEndExact(s: string) returns (b: string)
    ensures s == TrimEnd(s) + b && Blank(b)
    ensures TrimEnd(s) != "" ==> !IsWhitespace(TrimEnd(s)[|TrimEnd(s)| - 1])
  {
    b := "";
    if s != [] && IsWhitespace(s[|s| - 1]) {
      var r := TrimEndExact(s[..|s| - 1]);
      b := r + [s[|s| - 1]];
    }
  }

  // ------------------------------------------------------- the exact condition

  /** Characters and newlines of the lines. */
  function Length(lines: seq<string>): nat {
    if lines == [] then 0 else |lines[0]| + 1 + Length(lines[1..])
  }

  /** The same, without the lines that are read as headers. */
  function Weight(lines: seq<string>): nat {
    if lines == [] then 0 else (if HEADER <= lines[0] then 0 else |lines[0]| + 1) + Weight(lines[1..])
  }

  lemma {:induction false} PiecesLength(text: string)
    ensures Length(Pieces(text)) == |text| + 1
    decreases |text|
  {
    var i, ps := IndexOf(text, '\n'), Pieces(text);
    hide IndexOf;
    if i == |text| {
      assert ps[1..] == [];
    } else {
      assert ps[1..] == Pieces(text[i + 1..]);
      PiecesLength(text[i + 1..]);
    }
  }

  lemma {:induction false} WeightBound(ps: seq<string>)
    ensures Weight(StripReturns(ps)) <= Length(ps)
    ensures !NoReturns(ps) || !NoHeaders(ps) ==> Weight(StripReturns(ps)) < Length(ps)
  {
    if ps != [] {
      assert StripReturns(ps)[1..] == StripReturns(ps[1..]);
      WeightBound(ps[1..]);
      assert forall i | 0 <= i < |ps[1..]| :: ps[1..][i] == ps[i + 1];
      assert HEADER <= ps[0] ==> HEADER <= StripReturn(ps[0]);
    }
  }

  /** The bytes are a text of at most `n` characters. */
  ghost predicate Short(b: seq<Byte>, n: nat) {
    Utf8.Decode(b).Some? && |Utf8.Decode(b).value| <= n
  }

  /** Path `path` holds a text of at most `n` characters, and so does every path that changed since `prior`. */
  ghost predicate Shrunk(files: map<string, seq<Byte>>, prior: map<string, seq<Byte>>, path: string, n: nat) {
    && path in files && Short(files[path], n)
    && OthersShort(files, prior, n)
  }

  ghost predicate OthersShort(files: map<string, seq<Byte>>, prior: map<string, seq<Byte>>, n: nat) {
    forall q <- files :: Short(files[q], n) || (q in prior && files[q] == prior[q])
  }

  /** The same while a file is being read: `path` is the current one, or finished. */
  ghost predicate Shrinking(p: Parse, prior: map<string, seq<Byte>>, path: string, n: nat) {
    && |p.content| <= n && OthersShort(p.files, prior, n)
    && (p.path == path || (path in p.files && Short(p.files[path], n)))
  }

  lemma FinishShort(p: Parse, prior: map<string, seq<Byte>>, path: string, n: nat)
    requires path != "" && Shrinking(p, prior, path, n)
    ensures Shrunk(Finish(p), prior, path, n)
  {
    Utf8.RoundTrip(p.content);
    hide Utf8.Encode, Utf8.Decode;
  }

  /** No file can get more text than the lines that are not headers hold. */
  lemma {:induction false} ParseShort(
    p: Parse, lines: seq<string>, prior: map<string, seq<Byte>>, path: string, n: nat)
    requires path != "" && Shrinking(p, prior, path, n)
    requires if p.content == "" then Weight(lines) <= n + 1 else |p.content| + Weight(lines) <= n
    ensures Shrunk(Finish(ParseLines(p, lines)), prior, path, n)
    decreases |lines|
  {
    hide OthersShort, Short, Trim;
    FinishShort(p, prior, path, n);
    if lines != [] {
      ParseShort(ParseLine(p, lines[0]), lines[1..], prior, path, n);
    }
  }

  /** Content outside the condition comes back with fewer characters than it had, whatever was read before, and no file
      that it overwrites gets more. */
  lemma BadContentShrinks(p: Parse, f: File)
    requires GoodPath(f.path) && !GoodContent(f.content)
    ensures f.content != "" && Shrunk(Finish(AfterFile(p, f)), Finish(p), f.path, |f.content| - 1)
  {
    var c, ps := f.content, Pieces(f.content);
    var ls := StripReturns(ps);
    var p1, prior := Parse(f.path, "", Finish(p)), Finish(p);
    PiecesLength(c);
    WeightBound(ps);
    assert c != "" by { assert Pieces("") == [""]; }
    assert Shrinking(p1, prior, f.path, |c| - 1);
    if !NoReturns(ps) || !NoHeaders(ps) {
      hide Shrinking, Shrunk, Pieces, StripReturns, NoReturns, NoHeaders, Finish;
      ParseShort(p1, ls, prior, f.path, |c| - 1);
    } else {
      assert IndexOf(c, '\n') == 0;
      assert ps[0] == "" && ls[0] == "";
      assert ParseLine(p1, "") == p1;
      hide Shrinking, Shrunk, Pieces, StripReturns, Finish;
      ParseShort(p1, ls[1..], prior, f.path, |c| - 1);
    }
  }

  lemma ShortIsNotRestored(loaded: map<string, seq<Byte>>, f: File)
    requires f.content != "" && f.path in loaded && Short(loaded[f.path], |f.content| - 1)
    ensures !Restored(loaded, f)
  {
    Utf8.RoundTrip(f.content);
  }

  /** Good files with other paths after a bad one do not bring it back. */
  lemma BadThenGood(p: Parse, fs: seq<File>)
    requires fs != [] && ProperPaths(fs) && !GoodContent(fs[0].content) && GoodContents(fs[1..])
    ensures !Restored(Finish(ParseLines(AfterFile(p, fs[0]), Lines(Print(fs[1..])))), fs[0])
  {
    hide GoodPath, GoodContent, Lines, Print, ParseLines, AfterFile, Finish, Restored, ToMap, Short, OthersShort;
    var f, rest, files := fs[0], fs[1..], Finish(AfterFile(p, fs[0]));
    TailProper(fs);
    BadContentShrinks(p, f);
    ReadAll(AfterFile(p, f), rest);
    ToMapExact(files, rest);
    assert f.path in files;
    ShortIsNotRestored(ToMap(files, rest), f);
  }

  /** The last bad file of a list does not come back. */
  lemma {:induction false} BadFileIsLost(p: Parse, fs: seq<File>) returns (i: nat)
    requires ProperPaths(fs) && !GoodContents(fs)
    ensures i < |fs| && !Restored(Finish(ParseLines(p, Lines(Print(fs)))), fs[i])
    decreases |fs|
  {
    assert fs != [] && Print(fs) == PrintFile(fs[0]) + Print(fs[1..]);
    hide ProperPaths, GoodContents, GoodPath, GoodContent, Lines, Print, PrintFile, AfterFile, ParseLines, Restored;
    TailProper(fs);
    FileLines(p, fs[0], Print(fs[1..]));
    if GoodContents(fs[1..]) {
      BadThenGood(p, fs);
      i := 0;
    } else {
      var r := BadFileIsLost(AfterFile(p, fs[0]), fs[1..]);
      i := r + 1;
    }
  }

  /** Files with distinct good paths all come back exactly when every content meets the condition. */
  lemma RestoredIff(files: map<string, seq<Byte>>, fs: seq<File>)
    requires ProperPaths(fs)
    ensures var loaded := Populate(files, Utf8.Encode(Print(fs)));
            (forall i | 0 <= i < |fs| :: Restored(loaded, fs[i])) <==> GoodContents(fs)
  {
    if GoodContents(fs) {
      LoadRestores(files, fs);
    } else {
      Utf8.RoundTrip(Print(fs));
      var i := BadFileIsLost(Parse("", "", files), fs);
    }
  }

  /** A failing input: the carriage return before the newline is lost. */
  lemma ReturnIsLost()
    ensures GoodPath("p") && !GoodContent("a\r")
    ensures Load(map[], PrintFile(File("p", "a\r"))) == map["p" := Utf8.Encode("a")]
  {
    assert IndexOf("p", '\n') == 1 && Pieces("a\r") == ["a\r"];
    assert TrimStart("p") == "p" && TrimEnd("p") == "p";
    assert StripReturn("a\r") == "a" by { assert "a\r"[..1] == "a"; }
    assert StripReturns(["a\r"]) == ["a"];
    var f, p := File("p", "a\r"), Parse("p", "", map[]);
    FileLines(Parse("", "", map[]), f, "");
    assert PrintFile(f) + "" == PrintFile(f) && Lines("") == [];
    assert ParseLine(p, "a") == Parse("p", "a", map[]);
    assert ParseLines(p, ["a"]) == ParseLine(p, "a") by { assert ["a"][1..] == []; }
  }
}
