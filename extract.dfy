/** The image and link patterns `!\[(.*?)\]\((.*?)\)` and
    `(?<!!)\[(.*?)\]\((.*?)\)`, modelled by explicit scanners.

    A match starts at the leftmost position where the pattern can match at
    all. There, the lazy groups try the shortest first group first and, for
    each, the shortest second group; `.` never matches a newline. So the
    match found is the least (start, `](` position, `)` position) in
    lexicographic order. */
module Extraction {
  import opened Wrappers
  import opened Strings

  /** Images `![alt](url)` and links `[text](url)`. */
  datatype Syntax = ImageSyntax | LinkSyntax

  function Opener(k: Syntax): string {
    if k == ImageSyntax then "![" else "["
  }

  /** The characters in `[i, j)` hold no newline. */
  predicate OneLine(s: string, i: int, j: int) {
    0 <= i <= j <= |s| && forall t | i <= t < j :: s[t] != '\n'
  }

  /** The opener starts at `p`; a link's `[` must not follow a `!`. */
  predicate OpensAt(s: string, p: int, k: Syntax) {
    match k
    case ImageSyntax => 0 <= p && p + 2 <= |s| && s[p] == '!' && s[p + 1] == '['
    case LinkSyntax => 0 <= p && p + 1 <= |s| && s[p] == '[' && (p == 0 || s[p - 1] != '!')
  }

  /** From `a`, the first group runs to `q` where `](` follows, and the
      second group runs to `r` where `)` closes. */
  predicate TailAt(s: string, a: int, q: int, r: int) {
    OneLine(s, a, q) && q + 2 <= r < |s| && s[q] == ']' && s[q + 1] == '('
    && OneLine(s, q + 2, r) && s[r] == ')'
  }

  /** The pattern can match as `s[p..r + 1]` with `](` at `q`. */
  predicate MatchAt(s: string, p: int, q: int, r: int, k: Syntax) {
    OpensAt(s, p, k) && TailAt(s, p + |Opener(k)|, q, r)
  }

  /** The order in which the lazy groups try their ends. */
  predicate NoLater(q: int, r: int, q2: int, r2: int) {
    q < q2 || (q == q2 && r <= r2)
  }

  predicate Earlier(m: (nat, nat, nat), m2: (int, int, int)) {
    m.0 < m2.0 || (m.0 == m2.0 && NoLater(m.1, m.2, m2.1, m2.2))
  }

  /** The first `)` at or after `k` on the same line. */
  function CloseParen(s: string, k: nat): (r: Option<nat>)
    requires k <= |s|
    ensures r.Some? ==> (k <= r.value < |s| && OneLine(s, k, r.value) && s[r.value] == ')'
      && forall t | k <= t < r.value :: s[t] != ')')
    ensures r.None? ==> forall t | k <= t < |s| && s[t] == ')' :: !OneLine(s, k, t)
    decreases |s| - k
  {
    if k == |s| || s[k] == '\n' then None
    else if s[k] == ')' then Some(k)
    else CloseParen(s, k + 1)
  }

  /** The least group ends `(q, r)` with `q` at or after `q0`, for a first
      group that starts at `a`. */
  function FirstTail(s: string, a: nat, q0: nat): (t: Option<(nat, nat)>)
    requires OneLine(s, a, q0)
    ensures t.Some? ==> (q0 <= t.value.0 && TailAt(s, a, t.value.0, t.value.1)
      && forall q2, r2 | q0 <= q2 && TailAt(s, a, q2, r2) :: NoLater(t.value.0, t.value.1, q2, r2))
    ensures t.None? ==> forall q2, r2 | q0 <= q2 :: !TailAt(s, a, q2, r2)
    decreases |s| - q0
  {
    if q0 == |s| || s[q0] == '\n' then None
    else if q0 + 1 < |s| && s[q0] == ']' && s[q0 + 1] == '(' && CloseParen(s, q0 + 2).Some? then
      Some((q0, CloseParen(s, q0 + 2).value))
    else
      FirstTail(s, a, q0 + 1)
  }

  /** The match `re.search` finds from `p` on: the least start, then the
      least group ends. */
  function FirstMatchFrom(s: string, k: Syntax, p: nat): (m: Option<(nat, nat, nat)>)
    requires p <= |s|
    ensures m.Some? ==> (p <= m.value.0 && MatchAt(s, m.value.0, m.value.1, m.value.2, k)
      && forall p2, q2, r2 | p <= p2 && MatchAt(s, p2, q2, r2, k) :: Earlier(m.value, (p2, q2, r2)))
    ensures m.None? ==> forall p2, q2, r2 | p <= p2 :: !MatchAt(s, p2, q2, r2, k)
    decreases |s| - p
  {
    var a := p + |Opener(k)|;
    if OpensAt(s, p, k) && FirstTail(s, a, a).Some? then
      MatchHere(s, k, p);
      Some((p, FirstTail(s, a, a).value.0, FirstTail(s, a, a).value.1))
    else
      NoMatchAt(s, k, p);
      if p == |s| then None
      else FirstMatchFrom(s, k, p + 1)
  }

  /** With an opener and a tail at `p`, the least tail gives the first match
      from `p` on. */
  lemma MatchHere(s: string, k: Syntax, p: nat)
    requires p <= |s|
    requires OpensAt(s, p, k) && FirstTail(s, p + |Opener(k)|, p + |Opener(k)|).Some?
    ensures var t := FirstTail(s, p + |Opener(k)|, p + |Opener(k)|).value;
      MatchAt(s, p, t.0, t.1, k) &&
      forall p2, q2, r2 | p <= p2 && MatchAt(s, p2, q2, r2, k) :: Earlier((p, t.0, t.1), (p2, q2, r2))
  {
  }

  /** Without an opener and a tail at `p`, no match starts there. */
  lemma NoMatchAt(s: string, k: Syntax, p: nat)
    requires !(OpensAt(s, p, k) && FirstTail(s, p + |Opener(k)|, p + |Opener(k)|).Some?)
    ensures forall q, r :: !MatchAt(s, p, q, r, k)
  {
  }

  /** The pattern matches nowhere in the text. */
  ghost predicate NoMatch(s: string, k: Syntax) {
    forall p, q, r :: !MatchAt(s, p, q, r, k)
  }

  function FirstMatch(s: string, k: Syntax): Option<(nat, nat, nat)> {
    FirstMatchFrom(s, k, 0)
  }

  /** The two groups of a match. */
  function Groups(s: string, m: (nat, nat, nat), k: Syntax): (string, string)
    requires MatchAt(s, m.0, m.1, m.2, k)
  {
    (s[m.0 + |Opener(k)|..m.1], s[m.1 + 2..m.2])
  }

  /** `re.findall`: the groups of every match, left to right, the search
      resuming after each match. For links the lookbehind sees the `)` that
      ended the previous match, which is never a `!`, so resuming on the
      remaining text is the same search. */
  function FindAllMatches(s: string, k: Syntax): (gs: seq<(string, string)>)
    ensures gs == [] <==> FirstMatch(s, k).None?
    ensures gs == [] <==> NoMatch(s, k)
    ensures gs != [] ==> gs[0] == Groups(s, FirstMatch(s, k).value, k)
    decreases |s|
  {
    match FirstMatch(s, k)
    case None => []
    case Some(m) => [Groups(s, m, k)] + FindAllMatches(s[m.2 + 1..], k)
  }

  /** `extract_markdown_images`. */
  function ExtractMarkdownImages(text: string): (gs: seq<(string, string)>)
    ensures gs == [] <==> NoMatch(text, ImageSyntax)
  {
    FindAllMatches(text, ImageSyntax)
  }

  /** `extract_markdown_links`. */
  function ExtractMarkdownLinks(text: string): (gs: seq<(string, string)>)
    ensures gs == [] <==> NoMatch(text, LinkSyntax)
  {
    FindAllMatches(text, LinkSyntax)
  }

  // ---------------------------------------------------------------------
  // The literal the split loops search for

  /** `f"![{alt}]({url})"` or `f"[{text}]({url})"`. */
  function Literal(k: Syntax, g: (string, string)): string {
    Opener(k) + g.0 + "](" + g.1 + ")"
  }

  predicate NoNewline(t: string) {
    forall i | 0 <= i < |t| :: t[i] != '\n'
  }

  /** The opener occurs where a match opens. */
  lemma OpenerOccurs(s: string, p: int, k: Syntax)
    ensures OpensAt(s, p, k) ==> OccursAt(s, Opener(k), p)
    ensures OccursAt(s, Opener(k), p) && (k == LinkSyntax ==> p == 0 || s[p - 1] != '!')
      ==> OpensAt(s, p, k)
  {
    OccursPair(s, '!', '[', p);
    OccursChar(s, '[', p);
  }

  /** An occurrence of a literal is an occurrence of each of its pieces in turn. */
  lemma LiteralPieces(s: string, p: int, k: Syntax, g: (string, string))
    ensures OccursAt(s, Literal(k, g), p) <==>
      (OccursAt(s, Opener(k), p) && OccursAt(s, g.0, p + |Opener(k)|)
       && OccursAt(s, "](", p + |Opener(k)| + |g.0|)
       && OccursAt(s, g.1, p + |Opener(k)| + |g.0| + 2)
       && OccursAt(s, ")", p + |Opener(k)| + |g.0| + 2 + |g.1|))
  {
    var l1 := Opener(k) + g.0;
    var l2 := l1 + "](";
    var l3 := l2 + g.1;
    OccursConcat(s, l3, ")", p);
    OccursConcat(s, l2, g.1, p);
    OccursConcat(s, l1, "](", p);
    OccursConcat(s, Opener(k), g.0, p);
  }

  /** The pieces of a literal, in turn, make the literal. */
  lemma PiecesLiteral(s: string, p: int, k: Syntax, g: (string, string))
    requires OccursAt(s, Opener(k), p) && OccursAt(s, g.0, p + |Opener(k)|)
    requires OccursAt(s, "](", p + |Opener(k)| + |g.0|)
    requires OccursAt(s, g.1, p + |Opener(k)| + |g.0| + 2)
    requires OccursAt(s, ")", p + |Opener(k)| + |g.0| + 2 + |g.1|)
    ensures OccursAt(s, Literal(k, g), p)
  {
    LiteralPieces(s, p, k, g);
  }

  /** The groups of a match hold no newline. */
  lemma GroupsOneLine(s: string, m: (nat, nat, nat), k: Syntax)
    requires MatchAt(s, m.0, m.1, m.2, k)
    ensures NoNewline(Groups(s, m, k).0) && NoNewline(Groups(s, m, k).1)
  {
    OneLineSlice(s, m.0 + |Opener(k)|, m.1);
    OneLineSlice(s, m.1 + 2, m.2);
  }

  /** A match is as long as its literal. */
  lemma MatchLength(s: string, m: (nat, nat, nat), k: Syntax)
    requires MatchAt(s, m.0, m.1, m.2, k)
    ensures m.0 + |Literal(k, Groups(s, m, k))| == m.2 + 1
  {
  }

  /** The text of a match is its literal. */
  lemma MatchIsLiteral(s: string, m: (nat, nat, nat), k: Syntax)
    requires MatchAt(s, m.0, m.1, m.2, k)
    ensures OccursAt(s, Literal(k, Groups(s, m, k)), m.0)
  {
    MatchPieces(s, m, k);
    PiecesLiteral(s, m.0, k, Groups(s, m, k));
  }

  /** The pieces of a literal, each where a match puts it. */
  lemma MatchPieces(s: string, m: (nat, nat, nat), k: Syntax)
    requires MatchAt(s, m.0, m.1, m.2, k)
    ensures var g := Groups(s, m, k);
      OccursAt(s, Opener(k), m.0) && OccursAt(s, g.0, m.0 + |Opener(k)|) &&
      m.0 + |Opener(k)| + |g.0| == m.1 && OccursAt(s, "](", m.1) &&
      OccursAt(s, g.1, m.1 + 2) && m.1 + 2 + |g.1| == m.2 && OccursAt(s, ")", m.2)
  {
    OpenerOccurs(s, m.0, k);
    OccursSlice(s, m.0 + |Opener(k)|, m.1);
    OccursSlice(s, m.1 + 2, m.2);
    OccursPair(s, ']', '(', m.1);
    OccursChar(s, ')', m.2);
  }

  lemma OneLineSlice(s: string, i: int, j: int)
    requires OneLine(s, i, j)
    ensures NoNewline(s[i..j])
  {
    assert forall t | 0 <= t < j - i :: s[i..j][t] == s[i + t];
  }

  /** An occurrence of a literal whose groups hold no newline is a match,
      provided a link's literal does not follow a `!`. */
  lemma LiteralIsMatch(s: string, p: nat, k: Syntax, g: (string, string))
    requires OccursAt(s, Literal(k, g), p) && NoNewline(g.0) && NoNewline(g.1)
    requires k == LinkSyntax ==> (p == 0 || s[p - 1] != '!')
    ensures MatchAt(s, p, p + |Opener(k)| + |g.0|, p + |Opener(k)| + |g.0| + 2 + |g.1|, k)
  {
    var w := |Opener(k)|;
    var q := p + w + |g.0|;
    var r := q + 2 + |g.1|;
    LiteralPieces(s, p, k, g);
    OpenerOccurs(s, p, k);
    OccursPair(s, ']', '(', q);
    OccursChar(s, ')', r);
    assert OneLine(s, p + w, q) by {
      forall t | p + w <= t < q ensures s[t] != '\n' {
        assert s[t] == s[p + w..q][t - p - w];
      }
    }
    assert OneLine(s, q + 2, r) by {
      forall t | q + 2 <= t < r ensures s[t] != '\n' {
        assert s[t] == s[q + 2..r][t - q - 2];
      }
    }
  }

  /** The split loops cut at the first occurrence of the literal. For an
      image that is where the match starts: an earlier occurrence would be
      an earlier match. */
  lemma ImageLiteralFirst(s: string)
    requires FirstMatch(s, ImageSyntax).Some?
    ensures IndexOf(s, Literal(ImageSyntax, Groups(s, FirstMatch(s, ImageSyntax).value, ImageSyntax)))
      == Some(FirstMatch(s, ImageSyntax).value.0)
  {
    var m := FirstMatch(s, ImageSyntax).value;
    var g := Groups(s, m, ImageSyntax);
    MatchIsLiteral(s, m, ImageSyntax);
    MatchLength(s, m, ImageSyntax);
    GroupsOneLine(s, m, ImageSyntax);
    var i := IndexOf(s, Literal(ImageSyntax, g));
    assert i.Some?;
    LiteralIsMatch(s, i.value, ImageSyntax, g);
  }

  /** A link literal right after a `!` is an image literal. */
  lemma BangLinkIsImage(s: string, i: int, g: (string, string))
    requires OccursAt(s, Literal(LinkSyntax, g), i) && i > 0 && s[i - 1] == '!'
    ensures OccursAt(s, Literal(ImageSyntax, g), i - 1)
  {
    assert Literal(ImageSyntax, g) == "!" + Literal(LinkSyntax, g);
    OccursChar(s, '!', i - 1);
    OccursConcat(s, "!", Literal(LinkSyntax, g), i - 1);
  }

  /** For a link the same holds when the text holds no image: an earlier
      occurrence after a `!` would be an image. */
  lemma LinkLiteralFirst(s: string)
    requires FirstMatch(s, LinkSyntax).Some?
    requires FirstMatch(s, ImageSyntax).None?
    ensures IndexOf(s, Literal(LinkSyntax, Groups(s, FirstMatch(s, LinkSyntax).value, LinkSyntax)))
      == Some(FirstMatch(s, LinkSyntax).value.0)
  {
    var m := FirstMatch(s, LinkSyntax).value;
    var g := Groups(s, m, LinkSyntax);
    var lit := Literal(LinkSyntax, g);
    MatchIsLiteral(s, m, LinkSyntax);
    MatchLength(s, m, LinkSyntax);
    GroupsOneLine(s, m, LinkSyntax);
    var i := IndexOf(s, lit).value;
    if i > 0 && s[i - 1] == '!' {
      BangLinkIsImage(s, i, g);
      LiteralIsMatch(s, i - 1, ImageSyntax, g);
      assert false;
    }
    LiteralIsMatch(s, i, LinkSyntax, g);
  }

  /** Cutting at the first occurrence of a match's literal leaves the text
      before the match and the text after it. */
  lemma SplitAtMatch(s: string, m: (nat, nat, nat), k: Syntax)
    requires MatchAt(s, m.0, m.1, m.2, k)
    requires IndexOf(s, Literal(k, Groups(s, m, k))) == Some(m.0)
    ensures SplitOnce(s, Literal(k, Groups(s, m, k))) == [s[..m.0], s[m.2 + 1..]]
  {
    var lit := Literal(k, Groups(s, m, k));
    MatchIsLiteral(s, m, k);
    MatchLength(s, m, k);
    var parts := SplitOnce(s, lit);
    assert Contains(s, lit);
    var n := |parts[0]|;
    assert OccursAt(s, lit, n) by {
      assert s[n..n + |lit|] == (parts[0] + lit + parts[1])[n..n + |lit|];
    }
    assert n == m.0;
    assert parts[0] == s[..n] by {
      assert s[..n] == (parts[0] + lit + parts[1])[..n];
    }
    assert parts[1] == s[m.2 + 1..] by {
      assert s[n + |lit|..] == (parts[0] + lit + parts[1])[n + |lit|..];
    }
  }

  /** A match inside a prefix is a match of the whole text. */
  lemma MatchInPrefix(s: string, n: nat, p: int, q: int, r: int, k: Syntax)
    requires n <= |s| && MatchAt(s[..n], p, q, r, k)
    ensures MatchAt(s, p, q, r, k)
  {
    var a := p + |Opener(k)|;
    assert forall t | 0 <= t < n :: s[..n][t] == s[t];
    assert OneLine(s, a, q) && OneLine(s, q + 2, r);
  }

  /** An image inside a suffix is an image of the whole text. */
  lemma ImageInSuffix(s: string, d: nat, p: int, q: int, r: int)
    requires d <= |s| && MatchAt(s[d..], p, q, r, ImageSyntax)
    ensures MatchAt(s, p + d, q + d, r + d, ImageSyntax)
  {
    assert forall t | 0 <= t < |s| - d :: s[d..][t] == s[t + d];
    assert OneLine(s, p + d + 2, q + d) by {
      forall t | p + d + 2 <= t < q + d ensures s[t] != '\n' {
        assert s[t] == s[d..][t - d];
      }
    }
    assert OneLine(s, q + d + 2, r + d) by {
      forall t | q + d + 2 <= t < r + d ensures s[t] != '\n' {
        assert s[t] == s[d..][t - d];
      }
    }
  }
}
