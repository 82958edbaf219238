/**
  What a statement of an SQL script is (sqlscript/scan.go), without reference to how it is scanned: which
  text is leading comment, where quoted strings are, which separator ends the statement and what its token is.
 */
module SqlText {
  import opened Bytes
  import opened Utf8

  datatype Config = Config(separator: int, comments: bool)

  const DEFAULT: Config := Config(59, false) // DefaultSeparator, comments discarded

  /** unicode.IsSpace. */
  predicate IsSpace(r: Rune)
  {
    || 9 <= r <= 13 || r == 32 || r == 0x85 || r == 0xA0 || r == 0x1680 || 0x2000 <= r <= 0x200a
    || r == 0x2028 || r == 0x2029 || r == 0x202f || r == 0x205f || r == 0x3000
  }

  datatype RuneAt = RuneAt(r: Rune, w: nat)

  /** nextRune: an incomplete and an invalid sequence both read as the end of the data. */
  function Next(s: seq<byte>, p: nat): (x: Option<RuneAt>)
    ensures x.Some? ==> 1 <= x.value.w && p + x.value.w <= |s|
  {
    if p <= |s| && ValidHead(s[p..]) then Some(RuneAt(HeadRune(s[p..]), SeqLen(s[p]))) else None
  }

  /** The runes of s from position p to position q. */
  predicate Spells(s: seq<byte>, p: nat, rs: seq<Rune>, q: nat)
    decreases |rs|
  {
    if |rs| == 0 then p == q
    else
      var x := Next(s, p);
      x.Some? && x.value.r == rs[0] && Spells(s, p + x.value.w, rs[1..], q)
  }

  // ---------------------------------------------------------------- strings

  /** A single or a double quote. */
  predicate IsQuote(r: Rune)
  {
    r == 39 || r == 34
  }

  /**
    The quote of the string that rune i is in, if any. A string opens with a quote; it ends with the first
    quote of its kind that is not followed by another one.
   */
  function Open(rs: seq<Rune>, i: nat): (q: Option<Rune>)
    requires i <= |rs|
  {
    OpenFrom(None, rs, i)
  }

  /** The same for runes that start within a string, or outside. */
  function OpenFrom(st: Option<Rune>, rs: seq<Rune>, i: nat): (q: Option<Rune>)
    requires i <= |rs|
  {
    if i == 0 then st else Then(OpenFrom(st, rs, i - 1), rs[i - 1], i < |rs| && rs[i] == rs[i - 1])
  }

  /** The state after rune r, which the same rune follows or not. */
  function Then(st: Option<Rune>, r: Rune, again: bool): (q: Option<Rune>)
  {
    if st.None? then (if IsQuote(r) then Some(r) else None)
    else if r == st.value && !again then None
    else st
  }

  // ---------------------------------------------------------------- statements

  /** Rune i is a separator outside strings. */
  predicate Separates(c: Config, st: Option<Rune>, rs: seq<Rune>, i: nat)
    requires i < |rs|
  {
    rs[i] == c.separator && !IsQuote(rs[i]) && OpenFrom(st, rs, i).None?
  }

  /** The last rune, and no earlier one, is a separator outside strings. */
  predicate EndsFrom(c: Config, st: Option<Rune>, rs: seq<Rune>)
  {
    && |rs| > 0 && Separates(c, st, rs, |rs| - 1)
    && forall i :: 0 <= i < |rs| - 1 ==> !Separates(c, st, rs, i)
  }

  /** The runes of a statement and its separator. */
  predicate EndsStatement(c: Config, rs: seq<Rune>)
  {
    EndsFrom(c, None, rs)
  }

  /** The text without line feeds (10) and carriage returns (13). */
  function Unbroken(b: seq<byte>): (t: seq<byte>)
  {
    if |b| == 0 then [] else (if b[0] == 10 || b[0] == 13 then [] else [b[0]]) + Unbroken(b[1..])
  }

  /** The runes rs from d to pos are a statement with its separator, which is at e. */
  predicate StatementAt(c: Config, st: Option<Rune>, s: seq<byte>, d: nat, rs: seq<Rune>, e: nat, pos: nat)
  {
    EndsFrom(c, st, rs) && Spells(s, d, rs, pos) && Spells(s, d, rs[..|rs| - 1], e) && d <= e < pos <= |s|
  }

  // ---------------------------------------------------------------- leading space and comments

  predicate Spaces(s: seq<byte>, p: nat, q: nat)
    requires p <= q
    decreases q - p
  {
    p == q
    || (var x := Next(s, p);
        x.Some? && IsSpace(x.value.r) && p + x.value.w <= q && Spaces(s, p + x.value.w, q))
  }

  /** Two dashes (45). */
  predicate Dashes(s: seq<byte>, p: nat)
  {
    p + 1 < |s| && s[p] == 45 && s[p + 1] == 45
  }

  /** A line from its first to behind its last byte. */
  datatype Span = Span(from: nat, to: nat) {
    /** The position after the line feed. */
    function Behind(): (p: nat)
    {
      to + 1
    }
  }

  predicate CommentLine(s: seq<byte>, l: Span)
  {
    && l.from < l.to < |s| && Dashes(s, l.from) && s[l.to] == 10
    && forall i :: l.from <= i < l.to ==> s[i] != 10
  }

  /** From p on there are the comment lines ls, with space around them, and then a statement at d. */
  predicate Leads(s: seq<byte>, p: nat, ls: seq<Span>, d: nat)
    decreases |ls|
  {
    if |ls| == 0 then
      && p <= d && Spaces(s, p, d) && !Dashes(s, d)
      && Next(s, d).Some? && !IsSpace(Next(s, d).value.r)
    else
      p <= ls[0].from && Spaces(s, p, ls[0].from) && CommentLine(s, ls[0]) && Leads(s, ls[0].Behind(), ls[1..], d)
  }

  /** A line without a carriage return at its end. */
  function Trimmed(line: seq<byte>): (t: seq<byte>)
  {
    if |line| > 0 && line[|line| - 1] == 13 then line[..|line| - 1] else line
  }

  /** The comment lines, each ended by a line feed. */
  function Kept(s: seq<byte>, ls: seq<Span>): (t: seq<byte>)
  {
    if |ls| == 0 then []
    else if ls[0].from <= ls[0].to <= |s| then Trimmed(s[ls[0].from..ls[0].to]) + [10] + Kept(s, ls[1..])
    else Kept(s, ls[1..])
  }

  /** What a token begins with. */
  function Preface(c: Config, s: seq<byte>, ls: seq<Span>): (t: seq<byte>)
  {
    if c.comments then Kept(s, ls) else []
  }

  // ---------------------------------------------------------------- tokens

  ghost predicate TokenParts(c: Config, s: seq<byte>, p: nat, pos: nat, token: seq<byte>, ls: seq<Span>, d: nat,
                             rs: seq<Rune>, e: nat)
  {
    && Leads(s, p, ls, d) && StatementAt(c, None, s, d, rs, e, pos)
    && token == Preface(c, s, ls) + Unbroken(s[d..e])
  }

  /**
    From p to pos there is a statement with this token: leading space and comment lines, then runes up to
    and including the first separator outside strings. The token is the statement without line ends, behind
    the comment lines if these are kept.
   */
  ghost predicate TokenAt(c: Config, s: seq<byte>, p: nat, pos: nat, token: seq<byte>)
  {
    exists ls: seq<Span>, d: nat, rs: seq<Rune>, e: nat :: TokenParts(c, s, p, pos, token, ls, d, rs, e)
  }
}
