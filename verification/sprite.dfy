/** Assembly of the Frappe sprite sheet (`convert_directory_to_icons`),
    without the file system: the directory is a listing plus the contents
    of each listed file, and the output is the line buffer that the
    converter joins with newlines and writes once. */
module Sprite {
  import opened Wrappers
  import opened Text
  import IconNames
  import SvgExtract

  const SvgNamespace := "http://www.w3.org/2000/svg"

  /** The provenance comment and the opening root tag (the long lines are
      written in pieces, the root tag one attribute at a time). */
  const Header: seq<string> := [
    "<!--",
    "Octicons 24px icons " + "converted for Frappe Framework",
    "Source: https://github.com/primer/octicons",
    "License: MIT",
    "-->",
    "<svg id=\"frappe-symbols\"" + " aria-hidden=\"true\"" + " style=\"display: none;\"" + " class=\"icon\""
      + " xmlns=\"" + SvgNamespace + "\">"
  ]
  const Footer := "</svg>"
  const SymbolStart := "\t<symbol "
  const SymbolClose := "\t</symbol>"
  const ContentIndent := "\t\t"

  const ViewBoxAttr := "viewBox=\""
  const NamespaceAttr := "\" xmlns=\"" + SvgNamespace
  const IdAttr := "\" id=\""
  const TagClose := "\">"

  /** The opening tag of one symbol, indented one tab: the view box appears
      verbatim right after `viewBox="`, then the namespace, and the line
      ends with the id and the closing `">`. */
  function SymbolOpen(viewBox: string, id: string): (line: string)
    ensures SymbolStart <= line
    ensures |line| == |SymbolStart + ViewBoxAttr| + |viewBox| + |NamespaceAttr| + |IdAttr| + |id| + |TagClose|
    ensures line[..|SymbolStart + ViewBoxAttr|] == SymbolStart + ViewBoxAttr
    ensures line[|SymbolStart + ViewBoxAttr|..][..|viewBox|] == viewBox
    ensures line[|SymbolStart + ViewBoxAttr| + |viewBox|..][..|NamespaceAttr|] == NamespaceAttr
    ensures EndsWith(line, IdAttr + id + TagClose)
  {
    SymbolStart + ViewBoxAttr + viewBox + NamespaceAttr + IdAttr + id + TagClose
  }

  /** Given the length of the view box, the opening tag gives back both the
      view box and the id it was built from. */
  lemma SymbolOpenParts(v1: string, id1: string, v2: string, id2: string)
    requires |v1| == |v2|
    requires SymbolOpen(v1, id1) == SymbolOpen(v2, id2)
    ensures v1 == v2 && id1 == id2
  {
    var line := SymbolOpen(v1, id1);
    assert id1 + TagClose == line[|line| - |id1 + TagClose|..] == id2 + TagClose;
    assert id1 == (id1 + TagClose)[..|id1|];
  }

  // ---------------------------------------------------------------------
  // Content lines

  /** A line of symbol content: two tabs, then non-empty stripped text. */
  predicate IsContentLine(line: string) {
    |line| > |ContentIndent| && ContentIndent <= line && IsStripped(line[|ContentIndent|..])
  }

  /** `'\t\t' + line.strip()` for every line that is not blank, in order. */
  function IndentNonBlank(pieces: seq<string>): (r: seq<string>)
    ensures |r| <= |pieces|
    ensures forall k :: 0 <= k < |r| ==> IsContentLine(r[k])
  {
    if |pieces| == 0 then []
    else
      var line := Strip(pieces[0]);
      var rest := IndentNonBlank(pieces[1..]);
      if line != [] then
        assert (ContentIndent + line)[|ContentIndent|..] == line;
        [ContentIndent + line] + rest
      else rest
  }

  /** Every non-blank input line appears, stripped and indented. */
  lemma {:induction false} IndentNonBlankComplete(pieces: seq<string>, j: nat)
    requires j < |pieces| && Strip(pieces[j]) != []
    ensures ContentIndent + Strip(pieces[j]) in IndentNonBlank(pieces)
    decreases j
  {
    if j > 0 {
      assert pieces[1..][j - 1] == pieces[j];
      IndentNonBlankComplete(pieces[1..], j - 1);
    }
  }

  /** Every indented line comes from a non-blank input line. */
  lemma {:induction false} IndentNonBlankSound(pieces: seq<string>, l: string)
    requires l in IndentNonBlank(pieces)
    ensures exists j :: 0 <= j < |pieces| && l == ContentIndent + Strip(pieces[j])
    decreases |pieces|
  {
    var line := Strip(pieces[0]);
    if line != [] && l == ContentIndent + line {
      assert 0 < |pieces| && l == ContentIndent + Strip(pieces[0]);
    } else {
      IndentNonBlankSound(pieces[1..], l);
      var j :| 0 <= j < |pieces[1..]| && l == ContentIndent + Strip(pieces[1..][j]);
      assert l == ContentIndent + Strip(pieces[j + 1]);
    }
  }

  /** Lines without a newline stay without one. */
  lemma {:induction false} IndentNonBlankNoNewline(pieces: seq<string>)
    requires forall j :: 0 <= j < |pieces| ==> '\n' !in pieces[j]
    ensures forall l :: l in IndentNonBlank(pieces) ==> '\n' !in l
    decreases |pieces|
  {
    if |pieces| > 0 {
      IndentNonBlankNoNewline(pieces[1..]);
      StripKeepsAbsence(pieces[0], '\n');
    }
  }

  /** Filtering and indenting works line by line. */
  lemma {:induction false} IndentNonBlankConcat(a: seq<string>, b: seq<string>)
    ensures IndentNonBlank(a + b) == IndentNonBlank(a) + IndentNonBlank(b)
    decreases |a|
  {
    if |a| > 0 {
      assert (a + b)[0] == a[0] && (a + b)[1..] == a[1..] + b;
      IndentNonBlankConcat(a[1..], b);
    } else {
      assert a + b == b;
    }
  }

  /** The content lines of one symbol: the whole stripped content on one
      line when it has no newline, else every non-blank line stripped. */
  function ContentLines(content: string): (r: seq<string>)
    ensures forall k :: 0 <= k < |r| ==> ContentIndent <= r[k]
  {
    var pieces := Split(Strip(content), '\n');
    if |pieces| == 1 then [ContentIndent + Strip(content)] else IndentNonBlank(pieces)
  }

  /** Content without a newline becomes exactly one line: itself,
      stripped and indented. */
  lemma ContentLinesSingle(content: string)
    requires '\n' !in Strip(content)
    ensures ContentLines(content) == [ContentIndent + Strip(content)]
  {
    SplitJoin([Strip(content)], '\n');
  }

  /** For the non-empty content the converter accepts, the single-line
      shortcut agrees with the general rule of indenting every non-blank
      line. */
  lemma ContentLinesAgree(content: string)
    requires Strip(content) != []
    ensures ContentLines(content) == IndentNonBlank(Split(Strip(content), '\n'))
  {
    var t := Strip(content);
    var pieces := Split(t, '\n');
    if |pieces| == 1 {
      assert pieces[0] == t;
      StripIdempotent(content);
      assert pieces[1..] == [];
    }
  }

  /** The first line of non-empty stripped content is not blank. */
  lemma FirstPieceNotBlank(t: string)
    requires t != [] && IsStripped(t)
    ensures Strip(Split(t, '\n')[0]) != []
  {
    var pieces := Split(t, '\n');
    var first := pieces[0];
    if |pieces| == 1 {
      StripKeepsStripped(t);
    } else {
      assert t == first + ['\n'] + Join(pieces[1..], '\n');
      assert t[0] == if |first| > 0 then first[0] else '\n';
      StripEmptyIff(first);
    }
  }

  /** Accepted content yields at least one line, and every line is two tabs
      and a non-blank stripped line of the content, without a newline. */
  lemma ContentLinesWellFormed(content: string)
    requires Strip(content) != []
    ensures |ContentLines(content)| >= 1
    ensures forall k :: 0 <= k < |ContentLines(content)| ==>
      IsContentLine(ContentLines(content)[k]) && '\n' !in ContentLines(content)[k]
  {
    var t := Strip(content);
    var pieces := Split(t, '\n');
    ContentLinesAgree(content);
    FirstPieceNotBlank(t);
    IndentNonBlankComplete(pieces, 0);
    IndentNonBlankNoNewline(pieces);
  }

  // ---------------------------------------------------------------------
  // Counting symbols in the output

  /** Number of lines that open a symbol. */
  function SymbolCount(lines: seq<string>): nat
  {
    if |lines| == 0 then 0
    else (if SymbolStart <= lines[0] then 1 else 0) + SymbolCount(lines[1..])
  }

  lemma SymbolCountSingle(line: string)
    ensures SymbolCount([line]) == if SymbolStart <= line then 1 else 0
  {
    assert [line][1..] == [];
  }

  lemma {:induction false} SymbolCountConcat(a: seq<string>, b: seq<string>)
    ensures SymbolCount(a + b) == SymbolCount(a) + SymbolCount(b)
    decreases |a|
  {
    if |a| > 0 {
      assert (a + b)[0] == a[0] && (a + b)[1..] == a[1..] + b;
      SymbolCountConcat(a[1..], b);
    } else {
      assert a + b == b;
    }
  }

  /** Lines that do not start with `\t<symbol ` open nothing. */
  lemma {:induction false} OtherLinesOpenNothing(lines: seq<string>)
    requires forall k :: 0 <= k < |lines| ==> !(SymbolStart <= lines[k])
    ensures SymbolCount(lines) == 0
    decreases |lines|
  {
    if |lines| > 0 {
      OtherLinesOpenNothing(lines[1..]);
    }
  }

  /** Lines indented by two tabs never open a symbol. */
  lemma IndentedLinesOpenNothing(lines: seq<string>)
    requires forall k :: 0 <= k < |lines| ==> ContentIndent <= lines[k]
    ensures SymbolCount(lines) == 0
  {
    forall k | 0 <= k < |lines|
      ensures !(SymbolStart <= lines[k])
    {
      assert lines[k][1] == '\t';
    }
    OtherLinesOpenNothing(lines);
  }

  /** The header and footer open no symbol. */
  lemma FrameSymbolCount()
    ensures SymbolCount(Header) == 0
    ensures SymbolCount([Footer]) == 0
  {
    forall k | 0 <= k < |Header|
      ensures !(SymbolStart <= Header[k])
    {
      assert Header[k][0] != '\t';
    }
    OtherLinesOpenNothing(Header);
    SymbolCountSingle(Footer);
  }

  // ---------------------------------------------------------------------
  // Symbols

  /** One candidate file after extraction: its name, the symbol id derived
      from the name, and what `extract_svg_content` returned for it. */
  datatype Entry = Entry(filename: string, symbolId: string, parsed: Option<(string, string)>)

  /** `if viewbox and content`: both parts present and non-empty. */
  predicate Accepts(e: Entry) {
    e.parsed.Some? && e.parsed.value.0 != [] && e.parsed.value.1 != []
  }

  /** The lines emitted for an accepted file. */
  function SymbolBlock(e: Entry): (r: seq<string>)
    requires Accepts(e)
    ensures |r| >= 3 && r[|r| - 2] == SymbolClose && r[|r| - 1] == []
  {
    [SymbolOpen(e.parsed.value.0, e.symbolId)] + ContentLines(e.parsed.value.1) + [SymbolClose, []]
  }

  /** A symbol block opens exactly one symbol: its first line, the one
      carrying the view box and the id. */
  lemma SymbolBlockCount(e: Entry)
    requires Accepts(e)
    ensures SymbolCount(SymbolBlock(e)) == 1
    ensures SymbolBlock(e)[0] == SymbolOpen(e.parsed.value.0, e.symbolId)
  {
    var open := SymbolOpen(e.parsed.value.0, e.symbolId);
    var content := ContentLines(e.parsed.value.1);
    IndentedLinesOpenNothing(content);
    assert !(SymbolStart <= SymbolClose) by {
      assert SymbolClose[2] != SymbolStart[2];
    }
    SymbolCountSingle(open);
    SymbolCountSingle(SymbolClose);
    SymbolCountSingle([]);
    SymbolCountConcat([open], content);
    SymbolCountConcat([open] + content, [SymbolClose]);
    SymbolCountConcat([open] + content + [SymbolClose], [[]]);
    assert SymbolBlock(e) == [open] + content + [SymbolClose] + [[]];
  }

  /** The accepted entries, in order. */
  function Accepted(entries: seq<Entry>): (r: seq<Entry>)
    ensures |r| <= |entries|
    ensures forall k :: 0 <= k < |r| ==> Accepts(r[k])
  {
    if |entries| == 0 then []
    else
      var rest := Accepted(entries[1..]);
      if Accepts(entries[0]) then [entries[0]] + rest else rest
  }

  /** The accepted entries are exactly the entries that pass the check. */
  lemma {:induction false} AcceptedMembers(entries: seq<Entry>, e: Entry)
    ensures e in Accepted(entries) <==> e in entries && Accepts(e)
    decreases |entries|
  {
    if |entries| > 0 {
      AcceptedMembers(entries[1..], e);
      assert entries == [entries[0]] + entries[1..];
    }
  }

  lemma {:induction false} AcceptedConcat(a: seq<Entry>, b: seq<Entry>)
    ensures Accepted(a + b) == Accepted(a) + Accepted(b)
    decreases |a|
  {
    if |a| > 0 {
      assert (a + b)[0] == a[0] && (a + b)[1..] == a[1..] + b;
      AcceptedConcat(a[1..], b);
    } else {
      assert a + b == b;
    }
  }

  /** A file that fails to parse, or yields an empty view box or empty
      content, is skipped and the files after it are still converted. */
  lemma RejectedEntrySkipped(a: seq<Entry>, e: Entry, b: seq<Entry>)
    requires !Accepts(e)
    ensures Accepted(a + [e] + b) == Accepted(a + b)
  {
    AcceptedConcat(a + [e], b);
    AcceptedConcat(a, [e]);
    AcceptedConcat(a, b);
  }

  /** The lines of several blocks, one block after another. */
  function Flatten(blocks: seq<seq<string>>): seq<string>
  {
    if |blocks| == 0 then [] else blocks[0] + Flatten(blocks[1..])
  }

  lemma {:induction false} FlattenConcat(a: seq<seq<string>>, b: seq<seq<string>>)
    ensures Flatten(a + b) == Flatten(a) + Flatten(b)
    decreases |a|
  {
    if |a| > 0 {
      assert (a + b)[0] == a[0] && (a + b)[1..] == a[1..] + b;
      FlattenConcat(a[1..], b);
    } else {
      assert a + b == b;
    }
  }

  /** Blocks that open one symbol each open as many symbols as there are blocks. */
  lemma {:induction false} FlattenSymbolCount(blocks: seq<seq<string>>)
    requires forall k :: 0 <= k < |blocks| ==> SymbolCount(blocks[k]) == 1
    ensures SymbolCount(Flatten(blocks)) == |blocks|
    decreases |blocks|
  {
    if |blocks| > 0 {
      SymbolCountConcat(blocks[0], Flatten(blocks[1..]));
      FlattenSymbolCount(blocks[1..]);
    }
  }

  /** The symbol block of each accepted entry. */
  function Blocks(accepted: seq<Entry>): (r: seq<seq<string>>)
    requires forall k :: 0 <= k < |accepted| ==> Accepts(accepted[k])
    ensures |r| == |accepted|
  {
    seq(|accepted|, k requires 0 <= k < |accepted| => SymbolBlock(accepted[k]))
  }

  lemma BlocksSnoc(a: seq<Entry>, e: Entry)
    requires forall k :: 0 <= k < |a| ==> Accepts(a[k])
    requires Accepts(e)
    ensures Blocks(a + [e]) == Blocks(a) + [SymbolBlock(e)]
  {
    assert forall k :: 0 <= k < |a| ==> (a + [e])[k] == a[k];
  }

  /** Each accepted entry contributes exactly one symbol-opening line. */
  lemma BlocksSymbolCount(accepted: seq<Entry>)
    requires forall k :: 0 <= k < |accepted| ==> Accepts(accepted[k])
    ensures SymbolCount(Flatten(Blocks(accepted))) == |accepted|
  {
    var blocks := Blocks(accepted);
    forall k | 0 <= k < |blocks|
      ensures SymbolCount(blocks[k]) == 1
    {
      SymbolBlockCount(accepted[k]);
    }
    FlattenSymbolCount(blocks);
  }

  // ---------------------------------------------------------------------
  // The whole conversion

  /** The input directory: the names `os.listdir` returns, in whatever
      order, and the contents of each file. A listed name without
      contents stands for an entry that cannot be opened. */
  datatype Directory = Directory(listing: seq<string>, files: map<string, SvgExtract.IconFile>)

  /** The outcome of a run: the two early exits, or the line buffer and the
      number of symbols written. Only `Converted` returns true. */
  datatype ConvertResult =
    | DirectoryNotFound
    | NoMatchingFiles
    | Converted(lines: seq<string>, processed: nat)

  function FileAt(files: map<string, SvgExtract.IconFile>, name: string): SvgExtract.IconFile
  {
    if name in files then files[name] else SvgExtract.IconFile(None, None)
  }

  /** Extraction applied to each candidate, in order. */
  function Entries(files: map<string, SvgExtract.IconFile>, names: seq<string>): (r: seq<Entry>)
    ensures |r| == |names|
  {
    seq(|names|, k requires 0 <= k < |names| =>
      Entry(names[k], IconNames.SymbolIdOf(names[k]), SvgExtract.ExtractSvgContent(FileAt(files, names[k]))))
  }

  /** The buffer a run writes: the header, the symbol block of every
      accepted entry, and the closing root tag. */
  function Sheet(accepted: seq<Entry>): seq<string>
    requires forall k :: 0 <= k < |accepted| ==> Accepts(accepted[k])
  {
    Header + Flatten(Blocks(accepted)) + [Footer]
  }

  /** What a run produces, stated as a composition: filter and sort the
      listing, extract every candidate, keep the accepted ones, and frame
      their symbol blocks with the header and the closing tag. */
  function Expected(dir: Option<Directory>): (r: ConvertResult)
    ensures r.Converted? <==> dir.Some? && |IconNames.SortedCandidates(dir.value.listing)| > 0
  {
    match dir
    case None => DirectoryNotFound
    case Some(d) =>
      var candidates := IconNames.SortedCandidates(d.listing);
      if |candidates| == 0 then NoMatchingFiles
      else
        var accepted := Accepted(Entries(d.files, candidates));
        Converted(Sheet(accepted), |accepted|)
  }

  /** The buffer starts with the header and ends with the closing root tag. */
  lemma ExpectedFrame(dir: Option<Directory>)
    requires Expected(dir).Converted?
    ensures |Expected(dir).lines| > |Header| && Expected(dir).lines[..|Header|] == Header
    ensures Expected(dir).lines[|Expected(dir).lines| - 1] == Footer
  {
    var d := dir.value;
    var body := Flatten(Blocks(Accepted(Entries(d.files, IconNames.SortedCandidates(d.listing)))));
    assert Expected(dir).lines == Header + body + [Footer];
    FramedBy(body);
  }

  /** Whatever lies between them, the header comes first and the closing
      root tag last. */
  lemma FramedBy(body: seq<string>)
    ensures |Header + body + [Footer]| > |Header|
    ensures (Header + body + [Footer])[..|Header|] == Header
    ensures (Header + body + [Footer])[|Header + body + [Footer]| - 1] == Footer
  {
    assert (Header + body + [Footer])[..|Header|] == Header;
  }

  /** The processed count is the number of symbols in the buffer, at most
      one per candidate. */
  lemma ExpectedCount(dir: Option<Directory>)
    requires Expected(dir).Converted?
    ensures Expected(dir).processed == SymbolCount(Expected(dir).lines)
    ensures Expected(dir).processed <= |IconNames.SortedCandidates(dir.value.listing)|
  {
    var d := dir.value;
    var accepted := Accepted(Entries(d.files, IconNames.SortedCandidates(d.listing)));
    var body := Flatten(Blocks(accepted));
    assert Expected(dir).lines == Header + body + [Footer];
    FrameSymbolCount();
    BlocksSymbolCount(accepted);
    SymbolCountConcat(Header, body);
    SymbolCountConcat(Header + body, [Footer]);
  }

  /** The multi-line case: every non-blank line, stripped and indented. */
  method IndentLines(pieces: seq<string>) returns (body: seq<string>)
    ensures body == IndentNonBlank(pieces)
  {
    body := [];
    for j := 0 to |pieces|
      invariant body == IndentNonBlank(pieces[..j])
    {
      IndentNonBlankConcat(pieces[..j], [pieces[j]]);
      TakeSnoc(pieces, j);
      var line := Strip(pieces[j]);
      if line != [] {
        body := body + [ContentIndent + line];
      }
    }
    assert pieces[..|pieces|] == pieces;
  }

  /** The content lines of one symbol, computed the way the converter
      computes them: split the stripped content at newlines, then either
      emit it whole or emit every non-blank line. */
  method IndentContent(content: string) returns (body: seq<string>)
    ensures body == ContentLines(content)
  {
    var pieces := Split(Strip(content), '\n');
    if |pieces| == 1 {
      body := [ContentIndent + Strip(content)];
    } else {
      body := IndentLines(pieces);
    }
  }

  /** The lines of one symbol block, appended the way the converter appends
      them: the opening tag, the content lines, the closing tag, a blank line. */
  method AppendSymbol(lines: seq<string>, e: Entry) returns (out: seq<string>)
    requires Accepts(e)
    ensures out == lines + SymbolBlock(e)
  {
    var body := IndentContent(e.parsed.value.1);
    out := lines + [SymbolOpen(e.parsed.value.0, e.symbolId)] + body + [SymbolClose] + [[]];
  }

  lemma TakeSnoc<T>(s: seq<T>, i: nat)
    requires i < |s|
    ensures s[..i + 1] == s[..i] + [s[i]]
  {
  }

  lemma ConcatAssoc(a: seq<string>, b: seq<string>, c: seq<string>)
    ensures a + (b + c) == (a + b) + c
  {
  }

  /** One more entry: the buffer grows by its block exactly when it is
      accepted. */
  lemma BufferStep(done: seq<Entry>, e: Entry)
    ensures Accepted(done + [e]) == if Accepts(e) then Accepted(done) + [e] else Accepted(done)
    ensures Accepts(e) ==>
      Flatten(Blocks(Accepted(done + [e]))) == Flatten(Blocks(Accepted(done))) + SymbolBlock(e)
  {
    AcceptedConcat(done, [e]);
    assert Accepted([e]) == if Accepts(e) then [e] else [];
    if Accepts(e) {
      BlocksSnoc(Accepted(done), e);
      FlattenConcat(Blocks(Accepted(done)), [SymbolBlock(e)]);
      assert Flatten([SymbolBlock(e)]) == SymbolBlock(e);
    }
  }

  /** One iteration of the main loop keeps the buffer equal to the header
      followed by the blocks of the entries accepted so far. */
  lemma AppendStep(entries: seq<Entry>, i: nat, lines: seq<string>)
    requires i < |entries|
    requires lines == Header + Flatten(Blocks(Accepted(entries[..i])))
    ensures Accepts(entries[i]) ==>
      lines + SymbolBlock(entries[i]) == Header + Flatten(Blocks(Accepted(entries[..i + 1])))
    ensures !Accepts(entries[i]) ==> lines == Header + Flatten(Blocks(Accepted(entries[..i + 1])))
    ensures |Accepted(entries[..i + 1])| == |Accepted(entries[..i])| + if Accepts(entries[i]) then 1 else 0
  {
    var e := entries[i];
    BufferStep(entries[..i], e);
    TakeSnoc(entries, i);
    if Accepts(e) {
      ConcatAssoc(Header, Flatten(Blocks(Accepted(entries[..i]))), SymbolBlock(e));
    }
  }

  /** The main loop: starting from the header, append the block of every
      accepted entry in order and count them. */
  method AppendAll(entries: seq<Entry>) returns (lines: seq<string>, processed: nat)
    ensures lines == Header + Flatten(Blocks(Accepted(entries)))
    ensures processed == |Accepted(entries)|
  {
    lines := Header;
    processed := 0;
    for i := 0 to |entries|
      invariant lines == Header + Flatten(Blocks(Accepted(entries[..i])))
      invariant processed == |Accepted(entries[..i])|
    {
      var e := entries[i];
      AppendStep(entries, i, lines);
      if e.parsed.Some? && e.parsed.value.0 != [] && e.parsed.value.1 != [] {
        lines := AppendSymbol(lines, e);
        processed := processed + 1;
      }
    }
    assert entries[..|entries|] == entries;
  }

  /** `convert_directory_to_icons` without the file system: the two early
      exits, then the loop over the sorted candidates and the closing tag. */
  method ConvertDirectory(dir: Option<Directory>) returns (r: ConvertResult)
    ensures r == Expected(dir)
  {
    if dir.None? {
      return DirectoryNotFound;
    }
    var d := dir.value;
    var candidates := IconNames.SortedCandidates(d.listing);
    if |candidates| == 0 {
      return NoMatchingFiles;
    }
    var lines, processed := AppendAll(Entries(d.files, candidates));
    r := Converted(lines + [Footer], processed);
  }

  // ---------------------------------------------------------------------
  // Properties of a run

  /** The listing order `os.listdir` happens to use does not affect the
      result: the same names give the same output. */
  lemma ListingOrderIrrelevant(d1: Directory, d2: Directory)
    requires multiset(d1.listing) == multiset(d2.listing) && d1.files == d2.files
    ensures Expected(Some(d1)) == Expected(Some(d2))
  {
    IconNames.CandidateOrderIndependentOfListing(d1.listing, d2.listing);
  }

  /** `'\n'.join(output_lines)`: the text written to the output file. */
  function Render(lines: seq<string>): string
  {
    Join(lines, '\n')
  }

  /** The written text ends with the closing root tag and no newline, and
      when no line holds a newline, splitting the text at newlines gives
      the line buffer back. */
  lemma RenderedSprite(dir: Option<Directory>)
    requires Expected(dir).Converted?
    ensures EndsWith(Render(Expected(dir).lines), Footer)
    ensures (forall k :: 0 <= k < |Expected(dir).lines| ==> '\n' !in Expected(dir).lines[k]) ==>
      Split(Render(Expected(dir).lines), '\n') == Expected(dir).lines
  {
    var lines := Expected(dir).lines;
    ExpectedFrame(dir);
    var init := lines[..|lines| - 1];
    assert lines == init + [Footer];
    JoinSnoc(init, Footer, '\n');
    if forall k :: 0 <= k < |lines| ==> '\n' !in lines[k] {
      SplitJoin(lines, '\n');
    }
  }
}
