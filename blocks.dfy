/** Splitting a document into blocks and classifying each block.

    The classifier's regular expressions are modelled by explicit scanners
    for exactly those patterns. In Python's `re`, `.` never matches a
    newline, so `(.*)` after a marker always runs to the end of the line. */
module Blocks {
  import opened Wrappers
  import opened Strings
  import opened MarkdownEnums

  // ---------------------------------------------------------------------
  // markdown_to_blocks

  /** The raw pieces of `markdown.split('\n\n')`. */
  function Pieces(markdown: string): (ps: seq<string>)
    ensures |ps| >= 1 && Join(ps, "\n\n") == markdown
    ensures forall i | 0 <= i < |ps| :: !Contains(ps[i], "\n\n")
  {
    Split(markdown, "\n\n")
  }

  /** The blocks of a document: every piece, stripped, kept even when empty. */
  function MarkdownBlocks(markdown: string): (bs: seq<string>)
    ensures |bs| == |Pieces(markdown)|
    ensures forall i | 0 <= i < |bs| :: bs[i] == Strip(Pieces(markdown)[i]) && Trimmed(bs[i])
  {
    var ps := Pieces(markdown);
    seq(|ps|, i requires 0 <= i < |ps| => Strip(ps[i]))
  }

  /** `markdown_to_blocks`: one stripped block per piece, appended in order. */
  method MarkdownToBlocks(markdown: string) returns (cleanBlocks: seq<string>)
    ensures cleanBlocks == MarkdownBlocks(markdown)
  {
    var rawBlocks := Split(markdown, "\n\n");
    ghost var blocks := MarkdownBlocks(markdown);
    assert rawBlocks == Pieces(markdown) && |blocks| == |rawBlocks|;
    cleanBlocks := [];
    for i := 0 to |rawBlocks|
      invariant cleanBlocks == blocks[..i]
    {
      TakeOneMore(blocks, i);
      assert blocks[i] == Strip(rawBlocks[i]);
      cleanBlocks := cleanBlocks + [Strip(rawBlocks[i])];
    }
    TakeAll(blocks);
  }

  /** There is one block per occurrence of the blank-line separator, plus one. */
  lemma BlockCount(markdown: string)
    ensures |MarkdownBlocks(markdown)| == Count(markdown, "\n\n") + 1
  {
    SplitCount(markdown, "\n\n");
  }

  /** A trimmed text without a blank line is a single block, unchanged. */
  lemma SingleBlock(b: string)
    requires Trimmed(b) && !Contains(b, "\n\n")
    ensures MarkdownBlocks(b) == [b]
  {
    SplitSingle(b, "\n\n");
    assert Pieces(b) == [b];
    StripTrimmed(b);
    assert MarkdownBlocks(b)[0] == b;
  }

  // ---------------------------------------------------------------------
  // is_header: ^#{1,6} (.*)$ without MULTILINE

  /** The length of the run of `c` that starts the string. */
  function LeadingRun(s: string, c: char): (n: nat)
    ensures n <= |s| && (forall i | 0 <= i < n :: s[i] == c) && (n < |s| ==> s[n] != c)
  {
    if |s| > 0 && s[0] == c then 1 + LeadingRun(s[1..], c) else 0
  }

  /** The number of leading `#` characters. */
  function HashRun(s: string): nat {
    LeadingRun(s, '#')
  }

  /** The number of leading spaces (the regex ` +` counts only U+0020). */
  function SpaceRun(s: string): nat {
    LeadingRun(s, ' ')
  }

  /** What `.*$` accepts without MULTILINE: no newline, except possibly a
      last character that is one (Python's `$` also matches before a final
      newline). */
  predicate RestOfLine(t: string) {
    forall i | 0 <= i < |t| :: t[i] == '\n' ==> i == |t| - 1
  }

  /** The `(.*)` group of a rest of line: without its final newline. */
  function LineText(t: string): string {
    if |t| > 0 && t[|t| - 1] == '\n' then t[..|t| - 1] else t
  }

  /** `is_header`: a heading is its one to six hashes, a space and the rest. */
  predicate IsHeader(block: string)
    ensures IsHeader(block) ==> (1 <= HashRun(block) <= 6 && HashRun(block) < |block|
      && block == Hashes(HashRun(block)) + " " + block[HashRun(block) + 1..])
  {
    var n := HashRun(block);
    1 <= n <= 6 && n < |block| && block[n] == ' ' && RestOfLine(block[n + 1..])
  }

  /** `c` repeated `n` times. */
  function Repeat(c: char, n: nat): (s: string)
    ensures |s| == n && forall i | 0 <= i < n :: s[i] == c
  {
    if n == 0 then "" else [c] + Repeat(c, n - 1)
  }

  function Hashes(n: nat): string {
    Repeat('#', n)
  }

  function Spaces(k: nat): string {
    Repeat(' ', k)
  }

  /** A leading run of `c` adds to the run of `c` that follows it. */
  lemma {:induction false} RunPrefix(c: char, n: nat, rest: string)
    ensures LeadingRun(Repeat(c, n) + rest, c) == n + LeadingRun(rest, c)
  {
    if n > 0 {
      var s := Repeat(c, n) + rest;
      assert s[0] == c;
      assert s[1..] == Repeat(c, n - 1) + rest;
      RunPrefix(c, n - 1, rest);
    } else {
      assert Repeat(c, n) + rest == rest;
    }
  }

  /** One to six hashes, a space and a line of text form a heading. */
  lemma HeaderShape(n: nat, text: string)
    requires 1 <= n <= 6 && RestOfLine(text)
    ensures IsHeader(Hashes(n) + " " + text)
  {
    var b := Hashes(n) + " " + text;
    assert b == Hashes(n) + (" " + text);
    RunPrefix('#', n, " " + text);
    assert b[n] == ' ';
    assert b[n + 1..] == text;
  }

  /** Seven or more leading hashes are never a heading. */
  lemma SevenHashesNotHeader(rest: string)
    ensures !IsHeader(Hashes(7) + rest)
  {
    RunPrefix('#', 7, rest);
  }

  /** A block with a newline before its last character is never a heading. */
  lemma MultiLineNotHeader(block: string, i: nat)
    requires i + 1 < |block| && block[i] == '\n'
    ensures !IsHeader(block)
  {
    var n := HashRun(block);
    if 1 <= n <= 6 && n < |block| && block[n] == ' ' {
      assert i > n;
      assert block[n + 1..][i - n - 1] == '\n';
    }
  }

  // ---------------------------------------------------------------------
  // is_codeblock: ```\n(.*\n)+```

  /** `(.*\n)+` matches exactly the non-empty texts that end in a newline:
      each such text splits into newline-terminated lines. So the pattern
      matches when an opening fence and newline are followed by at least one
      line and then by three backticks. */
  predicate IsCodeBlock(block: string)
    ensures IsCodeBlock(block) ==> |block| >= 8
  {
    exists i, j | 0 <= i && i + 4 < j <= |block| ::
      OccursAt(block, "```\n", i) && block[j - 1] == '\n' && OccursAt(block, "```", j)
  }

  /** Fences around newline-terminated code make a code block; fences
      around nothing do not, since `(.*\n)+` needs at least one line. */
  lemma FencedIsCodeBlock(code: string)
    requires code != "" && code[|code| - 1] == '\n'
    ensures IsCodeBlock("```\n" + code + "```")
    ensures !IsCodeBlock("```\n```")
  {
    var b := "```\n" + code + "```";
    var j := |code| + 4;
    assert OccursAt(b, "```\n", 0) by { assert b[..4] == "```\n"; }
    assert OccursAt(b, "```", j) by { assert b[j..j + 3] == "```"; }
    assert b[j - 1] == '\n';
  }

  // ---------------------------------------------------------------------
  // findall of "> (.*)", "- (.*)" and "\d+\. (.*)" with MULTILINE

  /** The three line markers. */
  datatype Marker = QuoteMarker | DashMarker | NumberMarker

  predicate IsDigit(c: char) {
    '0' <= c <= '9'
  }

  /** How many characters of a marker the scan looks at. */
  function Width(m: Marker): nat {
    if m == NumberMarker then 3 else 2
  }

  /** A marker starts at index `p`. For the number marker one digit before
      `. ` is enough: the regex's leftmost match starts at the first digit of
      that run of digits, and its group starts after `. ` all the same. */
  predicate MarkerAt(s: string, p: int, m: Marker) {
    0 <= p && p + Width(m) <= |s| &&
    match m
    case QuoteMarker => s[p] == '>' && s[p + 1] == ' '
    case DashMarker => s[p] == '-' && s[p + 1] == ' '
    case NumberMarker => IsDigit(s[p]) && s[p + 1] == '.' && s[p + 2] == ' '
  }

  /** The smallest index at or after `k` where a marker starts. */
  function FirstMarkerFrom(s: string, m: Marker, k: nat): (r: Option<nat>)
    requires k <= |s|
    ensures r.Some? ==> (k <= r.value && MarkerAt(s, r.value, m)
      && forall j | k <= j < r.value :: !MarkerAt(s, j, m))
    ensures r.None? ==> forall j | k <= j <= |s| :: !MarkerAt(s, j, m)
    decreases |s| - k
  {
    if MarkerAt(s, k, m) then Some(k)
    else if k == |s| then None
    else FirstMarkerFrom(s, m, k + 1)
  }

  /** Where the first marker of a line starts, if it has one. */
  function FirstMarker(line: string, m: Marker): Option<nat> {
    FirstMarkerFrom(line, m, 0)
  }

  predicate HasMarker(line: string, m: Marker) {
    FirstMarker(line, m).Some?
  }

  /** `s.split('\n')`. */
  function Lines(s: string): (ls: seq<string>)
    ensures |ls| >= 1
  {
    Split(s, "\n")
  }

  /** The groups of a list of lines: for each line that holds a marker, the
      rest of the line after its first marker. */
  function LineGroups(lines: seq<string>, m: Marker): (gs: seq<string>)
    ensures |gs| <= |lines|
  {
    if lines == [] then []
    else
      var rest := LineGroups(lines[1..], m);
      match FirstMarker(lines[0], m)
      case None => rest
      case Some(p) => [lines[0][p + Width(m)..]] + rest
  }

  /** `re.findall` of a marker pattern with MULTILINE. A match never crosses
      a newline and its group `(.*)` runs to the end of the line, so the
      search finds exactly one match on each line that holds the marker, at
      the first marker of that line, and then resumes at the next line. */
  function FindAll(s: string, m: Marker): seq<string> {
    LineGroups(Lines(s), m)
  }

  /** One group per line exactly when every line holds a marker. */
  lemma {:induction false} LineGroupsCount(lines: seq<string>, m: Marker)
    ensures |LineGroups(lines, m)| == |lines| <==>
      (forall i | 0 <= i < |lines| :: HasMarker(lines[i], m))
  {
    if lines != [] {
      LineGroupsCount(lines[1..], m);
      if forall i | 1 <= i < |lines| :: HasMarker(lines[i], m) {
        assert forall i | 0 <= i < |lines[1..]| :: HasMarker(lines[1..][i], m);
      } else {
        var i :| 1 <= i < |lines| && !HasMarker(lines[i], m);
        assert !HasMarker(lines[1..][i - 1], m);
      }
    }
  }

  /** The common shape of the quote and list tests: as many lines in the
      stripped block as there are matches in the block. */
  predicate EveryLineMarked(block: string, m: Marker) {
    |Lines(Strip(block))| == |FindAll(block, m)|
  }

  predicate IsQuoteBlock(block: string)
    ensures IsQuoteBlock(block) ==> FindAll(block, QuoteMarker) != []
  {
    EveryLineMarked(block, QuoteMarker)
  }

  predicate IsUnorderedList(block: string)
    ensures IsUnorderedList(block) ==> FindAll(block, DashMarker) != []
  {
    EveryLineMarked(block, DashMarker)
  }

  predicate IsOrderedList(block: string)
    ensures IsOrderedList(block) ==> FindAll(block, NumberMarker) != []
  {
    EveryLineMarked(block, NumberMarker)
  }

  /** For a block as the segmenter produces it, a marker test holds exactly
      when every line holds the marker. Where in the line it sits does not
      matter, and the numbers of an ordered list are never checked. */
  lemma EveryLineMarkedTrimmed(block: string, m: Marker)
    requires Trimmed(block)
    ensures EveryLineMarked(block, m) <==>
      (forall i | 0 <= i < |Lines(block)| :: HasMarker(Lines(block)[i], m))
  {
    StripTrimmed(block);
    LineGroupsCount(Lines(block), m);
  }

  // ---------------------------------------------------------------------
  // block_to_block_type

  /** The first rule that holds wins: heading, code, quote, unordered list,
      ordered list, and paragraph when none does. */
  function BlockToBlockType(block: string): (t: BlockType)
    ensures t == Heading <==> IsHeader(block)
    ensures t == CodeBlock <==> !IsHeader(block) && IsCodeBlock(block)
    ensures t == Quote <==> !IsHeader(block) && !IsCodeBlock(block) && IsQuoteBlock(block)
    ensures t == UnorderedList <==> (!IsHeader(block) && !IsCodeBlock(block) && !IsQuoteBlock(block)
      && IsUnorderedList(block))
    ensures t == OrderedList <==> (!IsHeader(block) && !IsCodeBlock(block) && !IsQuoteBlock(block)
      && !IsUnorderedList(block) && IsOrderedList(block))
  {
    if IsHeader(block) then Heading
    else if IsCodeBlock(block) then CodeBlock
    else if IsQuoteBlock(block) then Quote
    else if IsUnorderedList(block) then UnorderedList
    else if IsOrderedList(block) then OrderedList
    else Paragraph
  }
}
