/**
  * The documentation search of the MCP tool: keyword scoring of whole files, splitting a
  * Markdown file into header-led sections, keeping the sections that mention a keyword,
  * and ranking the hits by relevance, of which the first five are returned.
  */
module SearchDocs {
  import opened Php

  /** A documentation file as `getDocumentationFiles` lists it (its path is not used by the search). */
  datatype DocFile = DocFile(name: string, content: string)

  /** One search result: the file's name, the section text and the file's relevance. */
  datatype Hit = Hit(file: string, content: string, relevance: nat)

  /** `explode(' ', strtolower($query))`: empty keywords appear for leading, trailing or doubled spaces. */
  function Keywords(query: string): (kws: seq<string>)
    ensures |kws| >= 1
  {
    Explode(Lower(query), ' ')
  }

  /** The keywords are the space-free pieces of the lower-cased query, and joining them
      with single spaces gives that query back. */
  lemma KeywordsSpec(query: string)
    ensures Implode(Keywords(query), ' ') == Lower(query)
    ensures forall i :: 0 <= i < |Keywords(query)| ==> ' ' !in Keywords(query)[i]
  {
    ExplodeImplode(Lower(query), ' ');
  }

  // ---------------------------------------------------------------------------
  // Header lines: preg_match('/^#+\s+(.+)$/', $line, $matches)
  // ---------------------------------------------------------------------------

  /** PCRE's `\s`: space, tab, line feed, vertical tab, form feed, carriage return. */
  predicate IsPcreSpace(c: char)
  {
    c == ' ' || c == '\t' || c == '\n' || c == '\U{000B}' || c == '\U{000C}' || c == '\r'
  }

  predicate IsHash(c: char)
  {
    c == '#'
  }

  /** The length of the longest prefix of `s` whose characters satisfy `p`. */
  function PrefixRun(s: string, p: char -> bool): (n: nat)
    ensures n <= |s|
  {
    if s != [] && p(s[0]) then 1 + PrefixRun(s[1..], p) else 0
  }

  /** The run is the longest prefix of characters satisfying `p`. */
  lemma {:induction false} PrefixRunSpec(s: string, p: char -> bool)
    ensures forall i :: 0 <= i < PrefixRun(s, p) ==> p(s[i])
    ensures PrefixRun(s, p) < |s| ==> !p(s[PrefixRun(s, p)])
  {
    if s != [] && p(s[0]) {
      PrefixRunSpec(s[1..], p);
      assert forall i :: 1 <= i < |s| ==> s[i] == s[1..][i - 1];
    }
  }

  /**
    * `$matches[1]` when the line is a header, `None` otherwise. `#+` and `\s+` are greedy;
    * when the whitespace runs to the end of the line, `\s+` gives its last character back
    * so that `(.+)` has one. This is exact for a line without a newline, which is every
    * line `explode("\n")` produces, so `.` and `$` need no further care.
    */
  function HeaderText(line: string): (t: Option<string>)
    ensures t.Some? ==> t.value != [] && |t.value| < |line| && line[|line| - |t.value|..] == t.value
  {
    var h := PrefixRun(line, IsHash);
    var w := PrefixRun(line[h..], IsPcreSpace);
    if h == 0 || w == 0 then None
    else if h + w < |line| then Some(line[h + w..])
    else if w >= 2 then Some(line[|line| - 1..])
    else None
  }

  predicate IsHeader(line: string)
  {
    HeaderText(line).Some?
  }

  function Hashes(k: nat): (s: string)
    ensures |s| == k && forall i :: 0 <= i < k ==> s[i] == '#'
  {
    if k == 0 then "" else "#" + Hashes(k - 1)
  }

  /** `#`s, then whitespace, then text that does not start with whitespace: the text is the header text. */
  lemma HeaderTextOfShape(k: nat, sp: string, title: string)
    requires k >= 1
    requires sp != [] && forall i :: 0 <= i < |sp| ==> IsPcreSpace(sp[i])
    requires title != [] && !IsPcreSpace(title[0])
    ensures HeaderText(Hashes(k) + sp + title) == Some(title)
  {
    var line := Hashes(k) + sp + title;
    HashRunOf(k, sp + title);
    assert line == Hashes(k) + (sp + title);
    assert line[k..] == sp + title;
    SpaceRunOf(sp, title);
    assert line[k + |sp|..] == title;
  }

  /**
    * `#`s followed only by whitespace: `\s+` gives back its last character for `(.+)` when it
    * has two or more, and the line is no header when it has just one.
    */
  lemma HeaderTextBacktracks(k: nat, sp: string)
    requires k >= 1
    requires sp != [] && forall i :: 0 <= i < |sp| ==> IsPcreSpace(sp[i])
    ensures HeaderText(Hashes(k) + sp) == if |sp| >= 2 then Some([sp[|sp| - 1]]) else None
  {
    var line := Hashes(k) + sp;
    HashRunOf(k, sp);
    assert line[k..] == sp;
    PrefixRunSpec(sp, IsPcreSpace);
    assert line[|line| - 1..] == [sp[|sp| - 1]];
  }

  lemma HashRunOf(k: nat, rest: string)
    requires rest != [] && rest[0] != '#'
    ensures PrefixRun(Hashes(k) + rest, IsHash) == k
  {
    var s := Hashes(k) + rest;
    PrefixRunSpec(s, IsHash);
    assert forall i :: 0 <= i < k ==> s[i] == '#';
    assert s[k] == rest[0];
  }

  lemma SpaceRunOf(sp: string, title: string)
    requires forall i :: 0 <= i < |sp| ==> IsPcreSpace(sp[i])
    requires title != [] && !IsPcreSpace(title[0])
    ensures PrefixRun(sp + title, IsPcreSpace) == |sp|
  {
    var s := sp + title;
    PrefixRunSpec(s, IsPcreSpace);
    assert forall i :: 0 <= i < |sp| ==> s[i] == sp[i];
    assert s[|sp|] == title[0];
  }

  /**
    * What a header line looks like: it starts with `#`, the text is a non-empty suffix,
    * everything before the text is `#`s and then whitespace, and at least one whitespace
    * character separates the `#`s from the text.
    */
  lemma HeaderShape(line: string)
    requires IsHeader(line)
    ensures var t := HeaderText(line).value;
      && line[0] == '#'
      && IsPcreSpace(line[|line| - |t| - 1])
      && (forall i :: 0 <= i < |line| - |t| ==> line[i] == '#' || IsPcreSpace(line[i]))
  {
    var h := PrefixRun(line, IsHash);
    var w := PrefixRun(line[h..], IsPcreSpace);
    PrefixRunSpec(line, IsHash);
    PrefixRunSpec(line[h..], IsPcreSpace);
    assert forall i :: h <= i < h + w ==> line[i] == line[h..][i - h];
  }

  // ---------------------------------------------------------------------------
  // Sections of a document
  // ---------------------------------------------------------------------------

  /** Some keyword occurs in `text`; an empty keyword occurs in every text. */
  predicate AnyKeywordIn(text: string, kws: seq<string>)
  {
    exists j :: 0 <= j < |kws| && Stripos(text, kws[j])
  }

  /**
    * A section: the header line that opened it ("" for the text before the first header)
    * and the lines that followed it up to the next header.
    */
  datatype Block = Block(header: string, body: seq<string>)

  /** The sections of `lines`, in document order: always a (possibly empty) leading one, then one per header line. */
  function Blocks(lines: seq<string>): (bs: seq<Block>)
    ensures |bs| >= 1
  {
    if lines == [] then [Block("", [])]
    else
      var init := lines[..|lines| - 1];
      var line := lines[|lines| - 1];
      var bs := Blocks(init);
      if IsHeader(line) then bs + [Block(line, [])]
      else bs[..|bs| - 1] + [bs[|bs| - 1].(body := bs[|bs| - 1].body + [line])]
  }

  /** `$currentSection`: every body line followed by a newline. */
  function BodyText(body: seq<string>): string
  {
    if body == [] then "" else BodyText(body[..|body| - 1]) + body[|body| - 1] + "\n"
  }

  /** Some body line mentions a keyword (each line lower-cased). */
  predicate SomeLineMentions(body: seq<string>, kws: seq<string>)
  {
    body != [] && (SomeLineMentions(body[..|body| - 1], kws) || AnyKeywordIn(Lower(body[|body| - 1]), kws))
  }

  /** The header line's text mentions a keyword (lower-cased); the leading section has no header. */
  predicate HeaderMentions(header: string, kws: seq<string>)
  {
    HeaderText(header).Some? && AnyKeywordIn(Lower(HeaderText(header).value), kws)
  }

  /** `$inRelevantSection` at the end of a section: its header text or one of its lines mentions a keyword. */
  predicate BlockRelevant(b: Block, kws: seq<string>)
  {
    HeaderMentions(b.header, kws) || SomeLineMentions(b.body, kws)
  }

  /** A section is emitted when it is relevant and its trimmed body is not `empty()`. */
  predicate Emitted(b: Block, kws: seq<string>)
  {
    BlockRelevant(b, kws) && Truthy(Trim(BodyText(b.body)))
  }

  /** The emitted text: `trim($currentHeader . "\n\n" . $currentSection)`. */
  function Render(b: Block): string
  {
    Trim(b.header + "\n\n" + BodyText(b.body))
  }

  /** The emitted sections, in order. */
  function EmitAll(bs: seq<Block>, kws: seq<string>): seq<string>
  {
    if bs == [] then []
    else
      var b := bs[|bs| - 1];
      EmitAll(bs[..|bs| - 1], kws) + (if Emitted(b, kws) then [Render(b)] else [])
  }

  /** `extractRelevantSections($content, $query, $keywords)` as a value. */
  function RelevantSections(content: string, kws: seq<string>): seq<string>
  {
    EmitAll(Blocks(Explode(content, '\n')), kws)
  }

  lemma BlocksHeaderStep(lines: seq<string>, line: string)
    requires IsHeader(line)
    ensures Blocks(lines + [line]) == Blocks(lines) + [Block(line, [])]
  {
    assert (lines + [line])[..|lines|] == lines;
  }

  lemma BlocksBodyStep(lines: seq<string>, line: string)
    requires !IsHeader(line)
    ensures var bs := Blocks(lines);
      Blocks(lines + [line]) == bs[..|bs| - 1] + [bs[|bs| - 1].(body := bs[|bs| - 1].body + [line])]
  {
    assert (lines + [line])[..|lines|] == lines;
  }

  lemma EmitAllSnoc(bs: seq<Block>, b: Block, kws: seq<string>)
    ensures EmitAll(bs + [b], kws) == EmitAll(bs, kws) + (if Emitted(b, kws) then [Render(b)] else [])
  {
    assert (bs + [b])[..|bs|] == bs;
  }

  lemma BodyStep(header: string, body: seq<string>, line: string, kws: seq<string>)
    ensures BodyText(body + [line]) == BodyText(body) + line + "\n"
    ensures BlockRelevant(Block(header, body + [line]), kws)
        <==> BlockRelevant(Block(header, body), kws) || AnyKeywordIn(Lower(line), kws)
  {
    assert (body + [line])[..|body|] == body;
  }

  lemma HeaderStep(line: string, title: string, kws: seq<string>)
    requires HeaderText(line) == Some(title)
    ensures BlockRelevant(Block(line, []), kws) <==> AnyKeywordIn(Lower(title), kws)
    ensures BodyText([]) == ""
  {
  }

  /** The lines a section was made from. */
  function BlockLines(b: Block): seq<string>
  {
    (if b.header == "" then [] else [b.header]) + b.body
  }

  function Flatten(bs: seq<Block>): seq<string>
  {
    if bs == [] then [] else Flatten(bs[..|bs| - 1]) + BlockLines(bs[|bs| - 1])
  }

  lemma FlattenSnoc(bs: seq<Block>, b: Block)
    ensures Flatten(bs + [b]) == Flatten(bs) + BlockLines(b)
  {
    assert (bs + [b])[..|bs|] == bs;
  }

  lemma FlattenHeaderStep(lines: seq<string>, line: string)
    requires IsHeader(line)
    ensures Flatten(Blocks(lines + [line])) == Flatten(Blocks(lines)) + [line]
  {
    BlocksHeaderStep(lines, line);
    FlattenSnoc(Blocks(lines), Block(line, []));
    assert line != "";
  }

  lemma FlattenBodyStep(lines: seq<string>, line: string)
    requires !IsHeader(line)
    ensures Flatten(Blocks(lines + [line])) == Flatten(Blocks(lines)) + [line]
  {
    BlocksBodyStep(lines, line);
    var bs := Blocks(lines);
    var last := bs[|bs| - 1];
    var extended := last.(body := last.body + [line]);
    var front := bs[..|bs| - 1];
    assert bs == front + [last];
    FlattenSnoc(front, last);
    FlattenSnoc(front, extended);
    BlockLinesAppend(last, line);
  }

  lemma BlockLinesAppend(b: Block, line: string)
    ensures BlockLines(b.(body := b.body + [line])) == BlockLines(b) + [line]
  {
  }

  /** Splitting into sections loses and reorders no line. */
  lemma {:induction false} BlocksFlatten(lines: seq<string>)
    ensures Flatten(Blocks(lines)) == lines
  {
    if lines != [] {
      var init := lines[..|lines| - 1];
      var line := lines[|lines| - 1];
      BlocksFlatten(init);
      assert lines == init + [line];
      if IsHeader(line) {
        FlattenHeaderStep(init, line);
      } else {
        FlattenBodyStep(init, line);
      }
    }
  }

  /** No line of a section body is a header line. */
  predicate BodyClean(body: seq<string>)
  {
    forall j :: 0 <= j < |body| ==> !IsHeader(body[j])
  }

  /** The section shape a split keeps: a leading section without header, header lines opening the others, none in a body. */
  predicate WellSplit(bs: seq<Block>)
  {
    && bs != []
    && bs[0].header == ""
    && (forall k :: 0 < k < |bs| ==> IsHeader(bs[k].header))
    && (forall k :: 0 <= k < |bs| ==> BodyClean(bs[k].body))
  }

  lemma WellSplitHeaderStep(lines: seq<string>, line: string)
    requires WellSplit(Blocks(lines)) && IsHeader(line)
    ensures WellSplit(Blocks(lines + [line]))
  {
    BlocksHeaderStep(lines, line);
    WellSplitAppend(Blocks(lines), Block(line, []));
  }

  /** Appending a section opened by a header line, with a clean body, keeps the shape. */
  lemma WellSplitAppend(bs: seq<Block>, b: Block)
    requires WellSplit(bs) && IsHeader(b.header) && BodyClean(b.body)
    ensures WellSplit(bs + [b])
  {
    var bs' := bs + [b];
    assert forall k :: 0 <= k < |bs| ==> bs'[k] == bs[k];
    assert bs'[|bs|] == b;
  }

  lemma BodyCleanSnoc(body: seq<string>, line: string)
    requires BodyClean(body) && !IsHeader(line)
    ensures BodyClean(body + [line])
  {
    var b := body + [line];
    forall j | 0 <= j < |b| ensures !IsHeader(b[j]) {
      if j < |body| {
        assert b[j] == body[j];
      }
    }
  }

  /** Replacing the last section by one with the same header and a clean body keeps the shape. */
  lemma WellSplitReplaceLast(bs: seq<Block>, last': Block)
    requires WellSplit(bs) && last'.header == bs[|bs| - 1].header && BodyClean(last'.body)
    ensures WellSplit(bs[..|bs| - 1] + [last'])
  {
    var n := |bs| - 1;
    var bs' := bs[..n] + [last'];
    assert forall k :: 0 <= k < n ==> bs'[k] == bs[k];
    assert bs'[n] == last';
  }

  lemma WellSplitBodyStep(lines: seq<string>, line: string)
    requires WellSplit(Blocks(lines)) && !IsHeader(line)
    ensures WellSplit(Blocks(lines + [line]))
  {
    BlocksBodyStep(lines, line);
    var bs := Blocks(lines);
    var n := |bs| - 1;
    assert BodyClean(bs[n].body);
    BodyCleanSnoc(bs[n].body, line);
    WellSplitReplaceLast(bs, bs[n].(body := bs[n].body + [line]));
  }

  /**
    * The first section has no header, every other one is opened by a header line, and no
    * header line ends up in a body.
    */
  lemma {:induction false} BlocksShape(lines: seq<string>)
    ensures WellSplit(Blocks(lines))
  {
    if lines != [] {
      var init := lines[..|lines| - 1];
      var line := lines[|lines| - 1];
      BlocksShape(init);
      assert lines == init + [line];
      if IsHeader(line) {
        WellSplitHeaderStep(init, line);
      } else {
        WellSplitBodyStep(init, line);
      }
    }
  }

  /** There is one section per header line, plus the leading one. */
  function HeaderCount(lines: seq<string>): nat
  {
    if lines == [] then 0
    else HeaderCount(lines[..|lines| - 1]) + (if IsHeader(lines[|lines| - 1]) then 1 else 0)
  }

  lemma {:induction false} BlocksCount(lines: seq<string>)
    ensures |Blocks(lines)| == HeaderCount(lines) + 1
  {
    if lines != [] {
      BlocksCount(lines[..|lines| - 1]);
    }
  }

  /** A string with a character `trim` keeps trims to a non-empty string. */
  lemma TrimNonEmpty(s: string, i: nat)
    requires i < |s| && !IsTrimChar(s[i])
    ensures Trim(s) != []
  {
    var left := TrimStart(s, IsTrimChar);
    TrimStartIsSuffix(s, IsTrimChar);
    assert |s| - |left| <= i;
    assert left[i - (|s| - |left|)] == s[i];
  }

  /** An emitted section's text is non-empty and trimmed. */
  lemma RenderTrimmed(b: Block, kws: seq<string>)
    requires Emitted(b, kws)
    ensures var r := Render(b); r != [] && !IsTrimChar(r[0]) && !IsTrimChar(r[|r| - 1])
  {
    TrimOfJoin(b.header, BodyText(b.body));
  }

  /** Text that does not trim to nothing keeps the join with a header from trimming to nothing. */
  lemma TrimOfJoin(header: string, text: string)
    requires Trim(text) != []
    ensures Trim(header + "\n\n" + text) != []
  {
    var full := header + "\n\n" + text;
    var left := TrimStart(text, IsTrimChar);
    var k := |text| - |left|;
    TrimStartIsSuffix(text, IsTrimChar);
    assert left != [];
    assert text[k] == left[0];
    assert full[|header| + 2 + k] == text[k];
    TrimNonEmpty(full, |header| + 2 + k);
  }

  /** The emitted sections are renderings of emitted blocks, at most one per block. */
  lemma {:induction false} EmitAllSound(bs: seq<Block>, kws: seq<string>)
    ensures |EmitAll(bs, kws)| <= |bs|
    ensures forall s :: s in EmitAll(bs, kws) ==> exists b :: b in bs && Emitted(b, kws) && s == Render(b)
  {
    if bs != [] {
      var init := bs[..|bs| - 1];
      var b := bs[|bs| - 1];
      EmitAllSound(init, kws);
      assert bs == init + [b];
    }
  }

  /** Every relevant section whose body is not blank is emitted. */
  lemma {:induction false} EmitAllComplete(bs: seq<Block>, kws: seq<string>)
    ensures forall b :: b in bs && Emitted(b, kws) ==> Render(b) in EmitAll(bs, kws)
  {
    if bs != [] {
      var init := bs[..|bs| - 1];
      EmitAllComplete(init, kws);
      assert bs == init + [bs[|bs| - 1]];
    }
  }

  /**
    * The emitted sections: each the rendering of a relevant section whose body is not
    * blank, every such section emitted, and every text non-empty and trimmed.
    */
  lemma EmitAllSpec(bs: seq<Block>, kws: seq<string>)
    ensures |EmitAll(bs, kws)| <= |bs|
    ensures forall s :: s in EmitAll(bs, kws) ==> exists b :: b in bs && Emitted(b, kws) && s == Render(b)
    ensures forall b :: b in bs && Emitted(b, kws) ==> Render(b) in EmitAll(bs, kws)
    ensures forall s :: s in EmitAll(bs, kws) ==> s != [] && !IsTrimChar(s[0]) && !IsTrimChar(s[|s| - 1])
  {
    EmitAllSound(bs, kws);
    EmitAllComplete(bs, kws);
    forall s | s in EmitAll(bs, kws) ensures s != [] && !IsTrimChar(s[0]) && !IsTrimChar(s[|s| - 1]) {
      var b :| b in bs && Emitted(b, kws) && s == Render(b);
      RenderTrimmed(b, kws);
    }
  }

  /** A relevant section is emitted only with a body that is not blank: one without lines never is. */
  lemma HeaderOnlyNotEmitted(header: string, kws: seq<string>)
    ensures !Emitted(Block(header, []), kws)
  {
  }

  /**
    * An empty keyword, which a leading, trailing or doubled space in the query produces, is
    * found in every text: every file then scores, and every section whose body is not blank
    * is emitted.
    */
  lemma EmptyKeywordMatchesEverything(text: string, kws: seq<string>)
    requires "" in kws
    ensures AnyKeywordIn(text, kws)
    ensures MatchCount(text, kws) > 0
  {
    var j :| 0 <= j < |kws| && kws[j] == "";
    assert Lower("") == "";
    assert OccursAt(Lower(text), "", 0);
    MatchCountPositive(text, kws);
  }

  lemma EmptyKeywordEmitsEveryNonBlankSection(b: Block, kws: seq<string>)
    requires "" in kws
    requires Truthy(Trim(BodyText(b.body)))
    ensures Emitted(b, kws)
  {
    assert b.body != [];
    EmptyKeywordMatchesEverything(Lower(b.body[|b.body| - 1]), kws);
  }

  /**
    * Keywords match whatever their case: the keyword `Foo` is found in the header
    * `# foo`, because `stripos` ignores case.
    */
  lemma KeywordCaseIgnored()
    ensures HeaderMentions("# foo", ["Foo"])
  {
    HeaderTextOfShape(1, " ", "foo");
    assert Hashes(1) + " " + "foo" == "# foo";
    assert HeaderText("# foo") == Some("foo");
    var kws := ["Foo"];
    assert Stripos(Lower("foo"), kws[0]) by {
      assert Lower("Foo") == "foo" && Lower("foo") == "foo";
      assert OccursAt("foo", "foo", 0);
    }
  }

  /** So the section `# foo` with body `bar` is emitted for the keyword `Foo`. */
  lemma KeywordCaseSelects()
    ensures Emitted(Block("# foo", ["bar"]), ["Foo"])
  {
    KeywordCaseIgnored();
    assert BodyText(["bar"]) == "bar\n" by { assert ["bar"][..0] == []; }
    var t := Trim("bar\n");
    assert t != [] by {
      TrimStartIsSuffix("bar\n", IsTrimChar);
      assert !IsTrimChar('b');
    }
  }

  /** There are at most as many emitted sections as header lines, plus one. */
  lemma SectionCountBound(content: string, kws: seq<string>)
    ensures |RelevantSections(content, kws)| <= HeaderCount(Explode(content, '\n')) + 1
  {
    var lines := Explode(content, '\n');
    BlocksCount(lines);
    EmitAllSound(Blocks(lines), kws);
  }

  /**
    * `foreach ($keywords as $keyword) if (stripos($text, $keyword) !== false) { ...; break; }`:
    * whether some keyword occurs in `text`, ignoring case.
    */
  method MatchesAnyKeyword(text: string, keywords: seq<string>) returns (found: bool)
    ensures found <==> AnyKeywordIn(text, keywords)
  {
    found := false;
    var j := 0;
    while j < |keywords|
      invariant 0 <= j <= |keywords|
      invariant !found ==> forall m :: 0 <= m < j ==> !Stripos(text, keywords[m])
      invariant found ==> AnyKeywordIn(text, keywords)
    {
      if Stripos(text, keywords[j]) {
        found := true;
        break;
      }
      j := j + 1;
    }
  }

  /**
    * The state of the scan after the lines `prefix`: the sections closed so far, the open
    * one, `$currentSection` as the open section's body text, `$inRelevantSection` as its
    * relevance, and the texts emitted for the closed ones.
    */
  ghost predicate Scanned(prefix: seq<string>, kws: seq<string>, closed: seq<Block>, header: string,
                          body: seq<string>, section: string, relevant: bool, sections: seq<string>)
  {
    && Blocks(prefix) == closed + [Block(header, body)]
    && section == BodyText(body)
    && relevant == BlockRelevant(Block(header, body), kws)
    && sections == EmitAll(closed, kws)
  }

  /** What closing the open section adds to the output. */
  function Flush(header: string, section: string, relevant: bool, sections: seq<string>): seq<string>
  {
    if relevant && Truthy(Trim(section)) then sections + [Trim(header + "\n\n" + section)] else sections
  }

  /** A header line closes the open section and opens one whose relevance is its text's. */
  lemma ScanHeader(prefix: seq<string>, line: string, title: string, kws: seq<string>, closed: seq<Block>,
                   header: string, body: seq<string>, section: string, relevant: bool, sections: seq<string>)
    requires Scanned(prefix, kws, closed, header, body, section, relevant, sections)
    requires HeaderText(line) == Some(title)
    ensures Scanned(prefix + [line], kws, closed + [Block(header, body)], line, [], "",
                    AnyKeywordIn(Lower(title), kws), Flush(header, section, relevant, sections))
  {
    BlocksHeaderStep(prefix, line);
    EmitAllSnoc(closed, Block(header, body), kws);
    HeaderStep(line, title, kws);
  }

  /** Any other line joins the open section's body and may make it relevant. */
  lemma ScanBody(prefix: seq<string>, line: string, kws: seq<string>, closed: seq<Block>,
                 header: string, body: seq<string>, section: string, relevant: bool, sections: seq<string>)
    requires Scanned(prefix, kws, closed, header, body, section, relevant, sections)
    requires !IsHeader(line)
    ensures Scanned(prefix + [line], kws, closed, header, body + [line], section + line + "\n",
                    relevant || AnyKeywordIn(Lower(line), kws), sections)
  {
    BlocksBodyStep(prefix, line);
    BodyStep(header, body, line, kws);
    assert (closed + [Block(header, body)])[..|closed|] == closed;
  }

  /** At the end, closing the open section gives every emitted section. */
  lemma ScanEnd(lines: seq<string>, kws: seq<string>, closed: seq<Block>,
                header: string, body: seq<string>, section: string, relevant: bool, sections: seq<string>)
    requires Scanned(lines, kws, closed, header, body, section, relevant, sections)
    ensures Flush(header, section, relevant, sections) == EmitAll(Blocks(lines), kws)
  {
    EmitAllSnoc(closed, Block(header, body), kws);
  }

  /** `extractRelevantSections($content, $query, $keywords)`; `$query` is not used by the source. */
  method ExtractRelevantSections(content: string, query: string, keywords: seq<string>)
    returns (sections: seq<string>)
    ensures sections == RelevantSections(content, keywords)
  {
    var lines := Explode(content, '\n');
    sections := [];
    var currentSection := "";
    var currentHeader := "";
    var inRelevantSection := false;
    ghost var closed: seq<Block> := [];
    ghost var body: seq<string> := [];
    for i := 0 to |lines|
      invariant Scanned(lines[..i], keywords, closed, currentHeader, body, currentSection, inRelevantSection, sections)
    {
      var line := lines[i];
      assert lines[..i + 1] == lines[..i] + [line];
      var header := HeaderText(line);
      match header {
        case Some(title) =>
          ScanHeader(lines[..i], line, title, keywords, closed, currentHeader, body,
                     currentSection, inRelevantSection, sections);
          ghost var flushed := Flush(currentHeader, currentSection, inRelevantSection, sections);
          if inRelevantSection && Truthy(Trim(currentSection)) {
            sections := sections + [Trim(currentHeader + "\n\n" + currentSection)];
          }
          assert sections == flushed;
          closed := closed + [Block(currentHeader, body)];
          currentHeader := line;
          currentSection := "";
          body := [];
          var headerLower := Lower(title);
          inRelevantSection := MatchesAnyKeyword(headerLower, keywords);
        case None =>
          ScanBody(lines[..i], line, keywords, closed, currentHeader, body,
                   currentSection, inRelevantSection, sections);
          currentSection := currentSection + line + "\n";
          body := body + [line];
          if !inRelevantSection {
            var lineLower := Lower(line);
            inRelevantSection := MatchesAnyKeyword(lineLower, keywords);
          }
      }
    }
    assert lines[..|lines|] == lines;
    ScanEnd(lines, keywords, closed, currentHeader, body, currentSection, inRelevantSection, sections);
    if inRelevantSection && Truthy(Trim(currentSection)) {
      sections := sections + [Trim(currentHeader + "\n\n" + currentSection)];
    }
  }

  // ---------------------------------------------------------------------------
  // Scoring and ranking
  // ---------------------------------------------------------------------------

  /** `$matchCount`: how many keywords, counted with repetition, occur in the lower-cased content. */
  function MatchCount(contentLower: string, kws: seq<string>): (n: nat)
    ensures n <= |kws|
  {
    if kws == [] then 0
    else MatchCount(contentLower, kws[..|kws| - 1]) + (if Stripos(contentLower, kws[|kws| - 1]) then 1 else 0)
  }

  /** A file scores above zero exactly when some keyword occurs in it. */
  lemma {:induction false} MatchCountPositive(text: string, kws: seq<string>)
    ensures MatchCount(text, kws) > 0 <==> AnyKeywordIn(text, kws)
  {
    if kws != [] {
      var init := kws[..|kws| - 1];
      MatchCountPositive(text, init);
      if AnyKeywordIn(text, init) {
        var j :| 0 <= j < |init| && Stripos(text, init[j]);
        assert kws[j] == init[j];
      }
      if AnyKeywordIn(text, kws) && !Stripos(text, kws[|kws| - 1]) {
        var j :| 0 <= j < |kws| && Stripos(text, kws[j]);
        assert init[j] == kws[j];
      }
    }
  }

  /** One hit per section, in order, all with the file's name and relevance. */
  function HitsFor(name: string, secs: seq<string>, m: nat): (hits: seq<Hit>)
    ensures |hits| == |secs|
    ensures forall i :: 0 <= i < |secs| ==> hits[i] == Hit(name, secs[i], m)
  {
    if secs == [] then [] else HitsFor(name, secs[..|secs| - 1], m) + [Hit(name, secs[|secs| - 1], m)]
  }

  /** The results one file contributes: none unless some keyword occurs in it. */
  function FileHits(f: DocFile, kws: seq<string>): seq<Hit>
  {
    var m := MatchCount(Lower(f.content), kws);
    if m == 0 then [] else HitsFor(f.name, RelevantSections(f.content, kws), m)
  }

  /** `$results` before sorting: the hits of every file, file by file, in order. */
  function Collect(files: seq<DocFile>, kws: seq<string>): seq<Hit>
  {
    if files == [] then [] else Collect(files[..|files| - 1], kws) + FileHits(files[|files| - 1], kws)
  }

  /**
    * Where a hit comes from: a file in the list whose relevance is the hit's, is above zero,
    * and whose relevant sections include the hit's text.
    */
  lemma {:induction false} CollectProvenance(files: seq<DocFile>, kws: seq<string>)
    ensures forall h :: h in Collect(files, kws) ==>
      exists f :: f in files && h.file == f.name && h.relevance == MatchCount(Lower(f.content), kws)
                  && h.content in RelevantSections(f.content, kws)
  {
    if files != [] {
      var init := files[..|files| - 1];
      var f := files[|files| - 1];
      CollectProvenance(init, kws);
      assert files == init + [f];
      forall h | h in FileHits(f, kws)
        ensures h.file == f.name && h.relevance == MatchCount(Lower(f.content), kws)
        ensures h.content in RelevantSections(f.content, kws)
      {
        var secs := RelevantSections(f.content, kws);
        var i :| 0 <= i < |secs| && FileHits(f, kws)[i] == h;
      }
    }
  }

  /** Every hit's relevance lies in `1..|kws|`. */
  lemma {:induction false} CollectRelevance(files: seq<DocFile>, kws: seq<string>)
    ensures forall h :: h in Collect(files, kws) ==> 1 <= h.relevance <= |kws|
  {
    if files != [] {
      var init := files[..|files| - 1];
      var f := files[|files| - 1];
      CollectRelevance(init, kws);
      assert forall h :: h in FileHits(f, kws) ==> h.relevance == MatchCount(Lower(f.content), kws) > 0;
    }
  }

  /** Conversely, every relevant section of every file that mentions a keyword is a hit. */
  lemma {:induction false} CollectComplete(files: seq<DocFile>, kws: seq<string>)
    ensures forall f, s ::
      f in files && AnyKeywordIn(Lower(f.content), kws) && s in RelevantSections(f.content, kws) ==> Hit(f.name, s, MatchCount(Lower(f.content), kws)) in Collect(files, kws)
  {
    if files != [] {
      var init := files[..|files| - 1];
      var f := files[|files| - 1];
      CollectComplete(init, kws);
      assert files == init + [f];
      forall s | AnyKeywordIn(Lower(f.content), kws) && s in RelevantSections(f.content, kws)
        ensures Hit(f.name, s, MatchCount(Lower(f.content), kws)) in FileHits(f, kws)
      {
        MatchCountPositive(Lower(f.content), kws);
        var secs := RelevantSections(f.content, kws);
        var i :| 0 <= i < |secs| && secs[i] == s;
        assert FileHits(f, kws)[i] == Hit(f.name, s, MatchCount(Lower(f.content), kws));
      }
    }
  }

  /** Inserts `h`, which came before every element of `s`, behind the elements of higher relevance. */
  function InsertByRelevance(h: Hit, s: seq<Hit>): seq<Hit>
  {
    if s == [] then [h]
    else if s[0].relevance <= h.relevance then [h] + s
    else [s[0]] + InsertByRelevance(h, s[1..])
  }

  /**
    * `usort($results, fn ($a, $b) => $b['relevance'] <=> $a['relevance'])`: a stable sort by
    * descending relevance (PHP's sort is stable since 8.0).
    */
  function SortByRelevance(xs: seq<Hit>): seq<Hit>
  {
    if xs == [] then [] else InsertByRelevance(xs[0], SortByRelevance(xs[1..]))
  }

  predicate SortedByRelevance(s: seq<Hit>)
  {
    forall i, j :: 0 <= i < j < |s| ==> s[i].relevance >= s[j].relevance
  }

  /** The hits of one relevance, in order. */
  function WithRelevance(s: seq<Hit>, r: nat): seq<Hit>
  {
    if s == [] then [] else (if s[0].relevance == r then [s[0]] else []) + WithRelevance(s[1..], r)
  }

  lemma {:induction false} InsertBounded(h: Hit, s: seq<Hit>, bound: nat)
    requires h.relevance <= bound
    requires forall i :: 0 <= i < |s| ==> s[i].relevance <= bound
    ensures forall i :: 0 <= i < |InsertByRelevance(h, s)| ==> InsertByRelevance(h, s)[i].relevance <= bound
  {
    if s != [] && s[0].relevance > h.relevance {
      InsertBounded(h, s[1..], bound);
    }
  }

  lemma {:induction false} InsertSorted(h: Hit, s: seq<Hit>)
    requires SortedByRelevance(s)
    ensures SortedByRelevance(InsertByRelevance(h, s))
  {
    if s != [] && s[0].relevance > h.relevance {
      var t := InsertByRelevance(h, s[1..]);
      InsertSorted(h, s[1..]);
      InsertBounded(h, s[1..], s[0].relevance);
      var u := [s[0]] + t;
      forall i, j | 0 <= i < j < |u| ensures u[i].relevance >= u[j].relevance {
        if i == 0 {
          assert u[j] == t[j - 1];
        } else {
          assert u[i] == t[i - 1] && u[j] == t[j - 1];
        }
      }
    }
  }

  lemma {:induction false} InsertPermutes(h: Hit, s: seq<Hit>)
    ensures multiset(InsertByRelevance(h, s)) == multiset(s) + multiset{h}
  {
    if s == [] {
    } else if s[0].relevance <= h.relevance {
      assert InsertByRelevance(h, s) == [h] + s;
    } else {
      InsertPermutes(h, s[1..]);
      var t := InsertByRelevance(h, s[1..]);
      assert InsertByRelevance(h, s) == [s[0]] + t;
      assert s == [s[0]] + s[1..];
      assert multiset(s) == multiset([s[0]]) + multiset(s[1..]);
    }
  }

  lemma {:induction false} InsertKeepsRelevanceOrder(h: Hit, s: seq<Hit>, r: nat)
    ensures WithRelevance(InsertByRelevance(h, s), r) == (if h.relevance == r then [h] else []) + WithRelevance(s, r)
  {
    if s != [] && s[0].relevance > h.relevance {
      InsertKeepsRelevanceOrder(h, s[1..], r);
      assert ([s[0]] + InsertByRelevance(h, s[1..]))[1..] == InsertByRelevance(h, s[1..]);
    } else if s != [] {
      assert ([h] + s)[1..] == s;
    }
  }

  lemma {:induction false} SortSorted(xs: seq<Hit>)
    ensures SortedByRelevance(SortByRelevance(xs))
  {
    if xs != [] {
      SortSorted(xs[1..]);
      InsertSorted(xs[0], SortByRelevance(xs[1..]));
    }
  }

  lemma {:induction false} SortPermutes(xs: seq<Hit>)
    ensures multiset(SortByRelevance(xs)) == multiset(xs)
  {
    if xs != [] {
      SortPermutes(xs[1..]);
      InsertPermutes(xs[0], SortByRelevance(xs[1..]));
      assert xs == [xs[0]] + xs[1..];
    }
  }

  lemma {:induction false} SortStable(xs: seq<Hit>, r: nat)
    ensures WithRelevance(SortByRelevance(xs), r) == WithRelevance(xs, r)
  {
    if xs != [] {
      SortStable(xs[1..], r);
      InsertKeepsRelevanceOrder(xs[0], SortByRelevance(xs[1..]), r);
    }
  }

  /**
    * The ranking is a sort: non-increasing relevance, the same hits, and hits of equal
    * relevance keep their order (file order, then document order).
    */
  lemma SortByRelevanceSpec(xs: seq<Hit>)
    ensures SortedByRelevance(SortByRelevance(xs))
    ensures multiset(SortByRelevance(xs)) == multiset(xs)
    ensures forall r :: WithRelevance(SortByRelevance(xs), r) == WithRelevance(xs, r)
  {
    SortSorted(xs);
    SortPermutes(xs);
    forall r ensures WithRelevance(SortByRelevance(xs), r) == WithRelevance(xs, r) {
      SortStable(xs, r);
    }
  }

  /** `array_slice($results, 0, 5)`. */
  function TakeFive(s: seq<Hit>): (t: seq<Hit>)
    ensures |t| <= 5 && (|s| >= 5 ==> |t| == 5) && (|s| < 5 ==> |t| == |s|)
    ensures t == s[..|t|]
  {
    if |s| <= 5 then s else s[..5]
  }

  /** In a ranked list, everything before position `n` ranks at least as high as everything from `n` on. */
  lemma RankedSplit(s: seq<Hit>, n: nat)
    requires SortedByRelevance(s) && n <= |s|
    ensures forall a, b :: a in s[..n] && b in s[n..] ==> a.relevance >= b.relevance
  {
    forall a, b | a in s[..n] && b in s[n..] ensures a.relevance >= b.relevance {
      var i :| 0 <= i < n && s[..n][i] == a;
      var j :| 0 <= j < |s| - n && s[n..][j] == b;
      assert s[i] == a && s[n + j] == b;
    }
  }

  /** Nothing left out of the first five ranks above anything kept. */
  lemma TopFive(xs: seq<Hit>)
    ensures var s := SortByRelevance(xs);
      forall h :: h in multiset(xs) - multiset(TakeFive(s)) ==>
        forall kept :: kept in TakeFive(s) ==> kept.relevance >= h.relevance
  {
    var s := SortByRelevance(xs);
    SortPermutes(xs);
    if |s| > 5 {
      SortSorted(xs);
      RankedSplit(s, 5);
      assert s == s[..5] + s[5..];
      assert multiset(xs) == multiset(s[..5]) + multiset(s[5..]);
      assert multiset(xs) - multiset(s[..5]) == multiset(s[5..]);
    } else {
      assert multiset(xs) - multiset(s) == multiset{};
    }
  }

  /** A prefix of a ranked list is ranked, and its hits come from the list. */
  lemma TakeFiveRanked(s: seq<Hit>)
    requires SortedByRelevance(s)
    ensures SortedByRelevance(TakeFive(s))
    ensures forall h :: h in TakeFive(s) ==> h in s
  {
    if |s| > 5 {
      assert forall i :: 0 <= i < 5 ==> s[..5][i] == s[i];
    }
  }

  lemma MatchCountStep(text: string, kws: seq<string>, j: nat)
    requires j < |kws|
    ensures MatchCount(text, kws[..j + 1]) == MatchCount(text, kws[..j]) + (if Stripos(text, kws[j]) then 1 else 0)
  {
    assert kws[..j + 1][..j] == kws[..j];
  }

  lemma HitsStep(name: string, secs: seq<string>, m: nat, k: nat)
    requires k < |secs|
    ensures HitsFor(name, secs[..k + 1], m) == HitsFor(name, secs[..k], m) + [Hit(name, secs[k], m)]
  {
    assert secs[..k + 1][..k] == secs[..k];
  }

  lemma CollectStep(files: seq<DocFile>, i: nat, kws: seq<string>)
    requires i < |files|
    ensures Collect(files[..i + 1], kws) == Collect(files[..i], kws) + FileHits(files[i], kws)
  {
    assert files[..i + 1][..i] == files[..i];
  }

  /** The returned hits: at most five, ranked, each a collected hit with relevance in `1..|kws|`. */
  lemma RankedResults(files: seq<DocFile>, kws: seq<string>)
    ensures var results := TakeFive(SortByRelevance(Collect(files, kws)));
      && |results| <= 5
      && SortedByRelevance(results)
      && forall h :: h in results ==> 1 <= h.relevance <= |kws| && h in Collect(files, kws)
  {
    var collected := Collect(files, kws);
    var sorted := SortByRelevance(collected);
    SortSorted(collected);
    SortPermutes(collected);
    TakeFiveRanked(sorted);
    CollectRelevance(files, kws);
    forall h | h in TakeFive(sorted) ensures h in collected {
      assert h in multiset(sorted);
    }
  }

  /**
    * The body of the loop over the files in `searchDocumentation`: count the keywords that
    * occur in the lower-cased content and, when there is at least one, turn every relevant
    * section into a hit carrying that count.
    */
  method FileResults(file: DocFile, query: string, keywords: seq<string>) returns (hits: seq<Hit>)
    ensures hits == FileHits(file, keywords)
  {
    var content := file.content;
    var contentLower := Lower(content);
    var matchCount := 0;
    for j := 0 to |keywords|
      invariant matchCount == MatchCount(contentLower, keywords[..j])
    {
      MatchCountStep(contentLower, keywords, j);
      if Stripos(contentLower, keywords[j]) {
        matchCount := matchCount + 1;
      }
    }
    assert keywords[..|keywords|] == keywords;
    hits := [];
    if matchCount > 0 {
      var sections := ExtractRelevantSections(content, query, keywords);
      for k := 0 to |sections|
        invariant hits == HitsFor(file.name, sections[..k], matchCount)
      {
        HitsStep(file.name, sections, matchCount, k);
        hits := hits + [Hit(file.name, sections[k], matchCount)];
      }
      assert sections[..|sections|] == sections;
    }
  }

  /**
    * `searchDocumentation($files, $query)`: score each file, collect the relevant sections
    * of every file that scores, rank them by relevance and return the first five.
    */
  method SearchDocumentation(files: seq<DocFile>, query: string) returns (results: seq<Hit>)
    ensures results == TakeFive(SortByRelevance(Collect(files, Keywords(query))))
    ensures |results| <= 5
    ensures SortedByRelevance(results)
    ensures forall h :: h in results ==> 1 <= h.relevance <= |Keywords(query)| && h in Collect(files, Keywords(query))
  {
    results := [];
    var queryLower := Lower(query);
    var keywords := Explode(queryLower, ' ');
    for i := 0 to |files|
      invariant results == Collect(files[..i], keywords)
    {
      var hits := FileResults(files[i], query, keywords);
      results := results + hits;
      CollectStep(files, i, keywords);
    }
    assert files[..|files|] == files;
    RankedResults(files, keywords);
    results := SortByRelevance(results);
    results := TakeFive(results);
  }
}
