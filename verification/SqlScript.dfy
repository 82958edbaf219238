/**
  sqlscript/scan.go: the split function that cuts an SQL script into statements. The functions work on
  positions in the data that the split function is called with; the class is the scanner that consumes
  that data rune by rune.
 */
module SqlScript {
  import opened Bytes
  import opened Utf8
  import opened SqlText

  const NL: int := 10
  const CR: int := 13
  const MINUS: int := 45
  const SINGLE_QUOTE: int := 39
  const DOUBLE_QUOTE: int := 34

  /** The runes of some data, by position. */
  datatype Runes = Runes(next: nat -> Option<RuneAt>, size: nat)

  function RunesOf(s: seq<byte>): (rd: Runes)
  {
    Runes((p: nat) => Next(s, p), |s|)
  }

  function Read(rd: Runes, p: nat): (x: Option<RuneAt>)
    ensures x.Some? ==> 1 <= x.value.w && p + x.value.w <= rd.size
  {
    var x := rd.next(p);
    if x.Some? && 1 <= x.value.w && p + x.value.w <= rd.size then x else None
  }

  /** rd reads the runes of s. */
  ghost predicate Reads(rd: Runes, s: seq<byte>)
  {
    rd.size == |s| && forall p: nat {:trigger Next(s, p)} :: Read(rd, p) == Next(s, p)
  }

  lemma RunesOfReads(s: seq<byte>)
    ensures Reads(RunesOf(s), s)
  {
  }

  /** A position after what was scanned, and the token so far. */
  datatype Scanned = Scanned(pos: nat, token: seq<byte>)

  /** scanWhitespace: the position of the next rune that is no space. */
  function Space(rd: Runes, p: nat): (q: Option<nat>)
    requires p <= rd.size
    ensures q.Some? ==> p <= q.value && Read(rd, q.value).Some? && !IsSpace(Read(rd, q.value).value.r)
    decreases rd.size - p
  {
    var x := Read(rd, p);
    if x.None? then None
    else if IsSpace(x.value.r) then Space(rd, p + x.value.w)
    else Some(p)
  }

  /** bytes.IndexByte for a line feed. */
  function LineEnd(s: seq<byte>, p: nat): (q: Option<nat>)
    requires p <= |s|
    ensures q.Some? ==> p <= q.value < |s| && s[q.value] == NL
    decreases |s| - p
  {
    if p == |s| then None else if s[p] == NL then Some(p) else LineEnd(s, p + 1)
  }

  /** appendLine, without a trailing carriage return. */
  function Line(line: seq<byte>): (r: seq<byte>)
  {
    if |line| > 0 && line[|line| - 1] == CR then line[..|line| - 1] else line
  }

  datatype CommentResult = More | NoComment | Comment(pos: nat, token: seq<byte>)

  /** scanComment. */
  function ScanComment(c: Config, s: seq<byte>, atEOF: bool, p: nat, token: seq<byte>): (r: CommentResult)
    requires p <= |s|
    ensures r.Comment? ==> p + 2 <= r.pos <= |s|
  {
    if |s| - p < 2 then (if atEOF then NoComment else More)
    else if s[p] != MINUS || s[p + 1] != MINUS then NoComment
    else
      var i := LineEnd(s, p);
      if i.Some? then Comment(i.value + 1, if c.comments then token + Line(s[p..i.value]) else token)
      else if atEOF then Comment(|s|, if c.comments then token + Line(s[p..]) else token)
      else More
  }

  /** scanString after its opening quote. */
  function ScanString(rd: Runes, p: nat, quote: Rune, token: seq<byte>): (r: Option<Scanned>)
    requires p <= rd.size
    ensures r.Some? ==> p < r.value.pos <= rd.size && Read(rd, r.value.pos).Some?
    decreases rd.size - p
  {
    var x := Read(rd, p);
    if x.None? then None
    else
      var r, q := x.value.r, p + x.value.w;
      if r == quote then
        var y := Read(rd, q);
        if y.None? then None
        else if y.value.r != quote then Some(Scanned(q, token + EncodeRune(r)))
        else ScanString(rd, q, quote, token + EncodeRune(r))
      else if r == NL || r == CR then ScanString(rd, q, quote, token)
      else ScanString(rd, q, quote, token + EncodeRune(r))
  }

  /** scanStatement. */
  function ScanStatement(c: Config, rd: Runes, p: nat, token: seq<byte>): (r: Option<Scanned>)
    requires p <= rd.size
    ensures r.Some? ==> p < r.value.pos <= rd.size
    decreases rd.size - p
  {
    var x := Read(rd, p);
    if x.None? then None
    else
      var r, q := x.value.r, p + x.value.w;
      if r == SINGLE_QUOTE || r == DOUBLE_QUOTE then
        var str := ScanString(rd, q, r, token + EncodeRune(r));
        if str.None? then None else ScanStatement(c, rd, str.value.pos, str.value.token)
      else if r == c.separator then Some(Scanned(q, token))
      else if r == NL || r == CR then ScanStatement(c, rd, q, token)
      else ScanStatement(c, rd, q, token + EncodeRune(r))
  }

  /** _scan: leading space and comments, then a statement. */
  function ScanFrom(c: Config, s: seq<byte>, atEOF: bool, p: nat, token: seq<byte>): (r: Option<Scanned>)
    requires p <= |s|
    ensures r.Some? ==> p < r.value.pos <= |s|
    decreases |s| - p
  {
    var d := Space(RunesOf(s), p);
    if d.None? then None
    else
      var m := ScanComment(c, s, atEOF, d.value, token);
      if m.More? then None
      else if m.NoComment? then ScanStatement(c, RunesOf(s), d.value, token)
      else ScanFrom(c, s, atEOF, m.pos, if c.comments then m.token + [NL] else m.token)
  }

  // ---------------------------------------------------------------- what is scanned

  lemma {:induction false} UnbrokenConcat(a: seq<byte>, b: seq<byte>)
    ensures Unbroken(a + b) == Unbroken(a) + Unbroken(b)
  {
    if |a| == 0 {
      assert a + b == b;
    } else {
      UnbrokenConcat(a[1..], b);
      assert (a + b)[1..] == a[1..] + b && (a + b)[0] == a[0];
      Assoc(if a[0] == NL || a[0] == CR then [] else [a[0]], Unbroken(a[1..]), Unbroken(b));
    }
  }

  /** A rune is its bytes; line ends add nothing to the text. */
  lemma {:induction false} RuneText(s: seq<byte>, p: nat, x: RuneAt)
    requires Next(s, p) == Some(x)
    ensures Unbroken(s[p..p + x.w]) == if x.r == NL || x.r == CR then [] else EncodeRune(x.r)
  {
    DecodedIsEncoding(s[p..]);
    var b := RuneBytes(x.r);
    assert s[p..][..x.w] == s[p..p + x.w] == b;
    if x.r < 0x80 {
      assert b == [x.r] && b[1..] == [] && Unbroken([]) == [];
      assert Unbroken(b) == (if x.r == NL || x.r == CR then [] else [x.r]) + [];
    } else {
      HighBytes(b);
    }
  }

  lemma {:induction false} HighBytes(b: seq<byte>)
    requires forall i :: 0 <= i < |b| ==> b[i] >= 0x80
    ensures Unbroken(b) == b
  {
    if |b| > 0 {
      HighBytes(b[1..]);
      assert b == [b[0]] + b[1..];
    }
  }

  lemma {:induction false} TextStep(s: seq<byte>, p: nat, q: nat, e: nat, x: RuneAt, token: seq<byte>)
    requires Next(s, p) == Some(x) && q == p + x.w <= e <= |s|
    ensures var next := if x.r == NL || x.r == CR then token else token + EncodeRune(x.r);
            token + Unbroken(s[p..e]) == next + Unbroken(s[q..e])
  {
    RuneText(s, p, x);
    assert s[p..e] == s[p..q] + s[q..e];
    UnbrokenConcat(s[p..q], s[q..e]);
    Assoc(token, Unbroken(s[p..q]), Unbroken(s[q..e]));
    assert token + [] == token;
  }

  lemma {:induction false} OpenShift(st: Option<Rune>, rs: seq<Rune>, tail: seq<Rune>, i: nat)
    requires i < |rs| && tail == rs[1..]
    ensures OpenFrom(st, rs, i + 1) == OpenFrom(Then(st, rs[0], |rs| > 1 && rs[1] == rs[0]), tail, i)
  {
    if i > 0 {
      OpenShift(st, rs, tail, i - 1);
      assert tail[i - 1] == rs[i] && (i < |tail| ==> tail[i] == rs[i + 1]);
    }
  }

  /** A statement in terms of its first rune. */
  lemma {:induction false} EndsCons(c: Config, st: Option<Rune>, rs: seq<Rune>, tail: seq<Rune>, st1: Option<Rune>)
    requires |rs| > 1 && tail == rs[1..] && st1 == Then(st, rs[0], rs[1] == rs[0])
    ensures EndsFrom(c, st, rs) <==> !Separates(c, st, rs, 0) && EndsFrom(c, st1, tail)
  {
    forall i | 0 <= i < |tail|
      ensures Separates(c, st, rs, i + 1) <==> Separates(c, st1, tail, i)
    {
      OpenShift(st, rs, tail, i);
    }
    if !Separates(c, st, rs, 0) && EndsFrom(c, st1, tail) {
      forall i | 0 <= i < |rs| - 1
        ensures !Separates(c, st, rs, i)
      {
        assert i == 0 || !Separates(c, st1, tail, i - 1);
      }
    }
  }

  /** A rune in front of a statement. */
  lemma {:induction false} StatementCons(c: Config, st: Option<Rune>, s: seq<byte>, p: nat, x: RuneAt, q: nat,
                                         tail: seq<Rune>, e: nat, pos: nat, st1: Option<Rune>)
    requires Next(s, p) == Some(x) && q == p + x.w && StatementAt(c, st1, s, q, tail, e, pos)
    requires st1 == Then(st, x.r, tail[0] == x.r) && (st.None? ==> x.r != c.separator || IsQuote(x.r))
    ensures StatementAt(c, st, s, p, [x.r] + tail, e, pos)
  {
    var rs := [x.r] + tail;
    assert rs[1..] == tail && rs[..|rs| - 1] == [x.r] + tail[..|tail| - 1];
    assert rs[..|rs| - 1][1..] == tail[..|tail| - 1];
    EndsCons(c, st, rs, tail, st1);
  }

  lemma {:induction false} FirstRune(s: seq<byte>, p: nat, rs: seq<Rune>, q: nat)
    requires |rs| > 0 && Spells(s, p, rs, q)
    ensures Next(s, p).Some? && Next(s, p).value.r == rs[0]
  {
  }

  /** What scanString and the rest of the statement read, from within a string. */
  lemma {:induction false} StringMeans(c: Config, rd: Runes, s: seq<byte>, p: nat, quote: Rune, token: seq<byte>,
                                       str: Scanned, rest: seq<Rune>, e: nat, pos: nat) returns (rs: seq<Rune>)
    requires Reads(rd, s) && p <= |s| && IsQuote(quote) && ScanString(rd, p, quote, token) == Some(str)
    requires StatementAt(c, None, s, str.pos, rest, e, pos)
    ensures StatementAt(c, Some(quote), s, p, rs, e, pos)
    ensures token + Unbroken(s[p..e]) == str.token + Unbroken(s[str.pos..e])
    decreases |s| - p
  {
    assert Read(rd, p) == Next(s, p);
    var x := Next(s, p).value;
    var q := p + x.w;
    assert Read(rd, q) == Next(s, q);
    if x.r == quote && Next(s, q).Some? && Next(s, q).value.r != quote {
      FirstRune(s, q, rest, pos);
      StatementCons(c, Some(quote), s, p, x, q, rest, e, pos, None);
      rs := [x.r] + rest;
      TextStep(s, p, q, e, x, token);
    } else {
      var token' := if x.r == NL || x.r == CR then token else token + EncodeRune(x.r);
      var tail := StringMeans(c, rd, s, q, quote, token', str, rest, e, pos);
      FirstRune(s, q, tail, pos);
      StatementCons(c, Some(quote), s, p, x, q, tail, e, pos, Some(quote));
      rs := [x.r] + tail;
      TextStep(s, p, q, e, x, token);
    }
  }

  /** What scanStatement reads and collects. */
  lemma {:induction false} StatementMeans(c: Config, rd: Runes, s: seq<byte>, p: nat, token: seq<byte>, r: Scanned)
      returns (rs: seq<Rune>, e: nat)
    requires Reads(rd, s) && p <= |s| && ScanStatement(c, rd, p, token) == Some(r)
    ensures StatementAt(c, None, s, p, rs, e, r.pos) && r.token == token + Unbroken(s[p..e])
    decreases |s| - p
  {
    assert Read(rd, p) == Next(s, p);
    var x := Next(s, p).value;
    var q := p + x.w;
    if IsQuote(x.r) {
      var str := ScanString(rd, q, x.r, token + EncodeRune(x.r)).value;
      var rest;
      rest, e := StatementMeans(c, rd, s, str.pos, str.token, r);
      var tail := StringMeans(c, rd, s, q, x.r, token + EncodeRune(x.r), str, rest, e, r.pos);
      StatementCons(c, None, s, p, x, q, tail, e, r.pos, Some(x.r));
      rs := [x.r] + tail;
      TextStep(s, p, q, e, x, token);
    } else if x.r == c.separator {
      rs, e := [x.r], p;
      assert rs[..0] == [] && rs[1..] == [] && s[p..p] == [] && token + [] == token;
    } else {
      var token' := if x.r == NL || x.r == CR then token else token + EncodeRune(x.r);
      var tail;
      tail, e := StatementMeans(c, rd, s, q, token', r);
      StatementCons(c, None, s, p, x, q, tail, e, r.pos, None);
      rs := [x.r] + tail;
      TextStep(s, p, q, e, x, token);
    }
  }

  lemma {:induction false} SpellsForward(s: seq<byte>, p: nat, rs: seq<Rune>, q: nat)
    requires Spells(s, p, rs, q)
    ensures p <= q
    decreases |rs|
  {
    if |rs| > 0 {
      SpellsForward(s, p + Next(s, p).value.w, rs[1..], q);
    }
  }

  /** A statement without its first rune. */
  lemma {:induction false} StatementRest(c: Config, st: Option<Rune>, s: seq<byte>, p: nat, rs: seq<Rune>, e: nat,
                                         pos: nat, x: RuneAt, q: nat, tail: seq<Rune>, st1: Option<Rune>)
    requires StatementAt(c, st, s, p, rs, e, pos) && |rs| > 1 && tail == rs[1..]
    requires Next(s, p) == Some(x) && q == p + x.w && st1 == Then(st, rs[0], rs[1] == rs[0])
    ensures x.r == rs[0] && !Separates(c, st, rs, 0) && StatementAt(c, st1, s, q, tail, e, pos)
    ensures Next(s, q).Some? && Next(s, q).value.r == rs[1]
  {
    EndsCons(c, st, rs, tail, st1);
    assert rs[..|rs| - 1][1..] == tail[..|tail| - 1];
    SpellsForward(s, q, tail[..|tail| - 1], e);
    FirstRune(s, q, tail, pos);
  }

  /** The first rune of a statement is a rune of the data. */
  lemma {:induction false} StatementStarts(c: Config, st: Option<Rune>, s: seq<byte>, p: nat, rs: seq<Rune>, e: nat,
                                           pos: nat)
    requires StatementAt(c, st, s, p, rs, e, pos)
    ensures Next(s, p).Some? && Next(s, p).value.r == rs[0]
    ensures |rs| == 1 ==> rs[0] == c.separator && !IsQuote(rs[0]) && st.None? && e == p && pos == p + Next(s, p).value.w
  {
    FirstRune(s, p, rs, pos);
    if |rs| == 1 {
      assert rs[..0] == [] && rs[1..] == [];
      assert Spells(s, p + Next(s, p).value.w, rs[1..], pos) && Spells(s, p, rs[..0], e);
    }
  }

  /** Such a statement is found by scanStatement ... */
  lemma {:induction false} StatementFound(c: Config, rd: Runes, s: seq<byte>, p: nat, token: seq<byte>, rs: seq<Rune>,
                                          e: nat, pos: nat)
    requires Reads(rd, s) && StatementAt(c, None, s, p, rs, e, pos)
    ensures ScanStatement(c, rd, p, token) == Some(Scanned(pos, token + Unbroken(s[p..e])))
    decreases |rs|
  {
    assert Read(rd, p) == Next(s, p);
    StatementStarts(c, None, s, p, rs, e, pos);
    var x := Next(s, p).value;
    var q := p + x.w;
    if |rs| == 1 {
      assert s[p..p] == [] && token + [] == token;
    } else {
      var st1 := Then(None, rs[0], rs[1] == rs[0]);
      StatementRest(c, None, s, p, rs, e, pos, x, q, rs[1..], st1);
      SpellsForward(s, q, rs[1..][..|rs| - 2], e);
      TextStep(s, p, q, e, x, token);
      if IsQuote(x.r) {
        var str := StringFound(c, rd, s, q, x.r, token + EncodeRune(x.r), rs[1..], e, pos);
      } else {
        StatementFound(c, rd, s, q, if x.r == NL || x.r == CR then token else token + EncodeRune(x.r), rs[1..], e, pos);
      }
    }
  }

  /** ... and from within a string by scanString and then scanStatement. */
  lemma {:induction false} StringFound(c: Config, rd: Runes, s: seq<byte>, p: nat, quote: Rune, token: seq<byte>,
                                       rs: seq<Rune>, e: nat, pos: nat) returns (str: Scanned)
    requires Reads(rd, s) && IsQuote(quote) && StatementAt(c, Some(quote), s, p, rs, e, pos)
    ensures ScanString(rd, p, quote, token) == Some(str)
    ensures ScanStatement(c, rd, str.pos, str.token) == Some(Scanned(pos, token + Unbroken(s[p..e])))
    decreases |rs|
  {
    assert Read(rd, p) == Next(s, p);
    StatementStarts(c, Some(quote), s, p, rs, e, pos);
    var x := Next(s, p).value;
    var q := p + x.w;
    assert Read(rd, q) == Next(s, q);
    var st1 := Then(Some(quote), rs[0], rs[1] == rs[0]);
    StatementRest(c, Some(quote), s, p, rs, e, pos, x, q, rs[1..], st1);
    TextStep(s, p, q, e, x, token);
    if st1.None? {
      str := Scanned(q, token + EncodeRune(x.r));
      StatementFound(c, rd, s, q, str.token, rs[1..], e, pos);
    } else {
      var token' := if x.r == NL || x.r == CR then token else token + EncodeRune(x.r);
      str := StringFound(c, rd, s, q, quote, token', rs[1..], e, pos);
    }
  }

  // ---------------------------------------------------------------- leading space and comments

  lemma {:induction false} SpaceMeans(rd: Runes, s: seq<byte>, p: nat, d: nat)
    requires Reads(rd, s) && p <= |s|
    ensures Space(rd, p) == Some(d) <==>
              p <= d && Spaces(s, p, d) && Next(s, d).Some? && !IsSpace(Next(s, d).value.r)
    decreases |s| - p
  {
    assert Read(rd, p) == Next(s, p);
    if Next(s, p).Some? && IsSpace(Next(s, p).value.r) {
      SpaceMeans(rd, s, p + Next(s, p).value.w, d);
    }
  }

  lemma {:induction false} LineEndMeans(s: seq<byte>, p: nat, i: nat)
    requires p <= |s|
    ensures LineEnd(s, p) == Some(i) <==> p <= i < |s| && s[i] == NL && forall k :: p <= k < i ==> s[k] != NL
    decreases |s| - p
  {
    if p < |s| && s[p] != NL {
      LineEndMeans(s, p + 1, i);
    }
  }

  /** A comment line is scanned as such. */
  lemma {:induction false} CommentFound(c: Config, s: seq<byte>, eof: bool, token: seq<byte>, l: Span)
    requires CommentLine(s, l)
    ensures ScanComment(c, s, eof, l.from, token)
            == Comment(l.Behind(), if c.comments then token + Trimmed(s[l.from..l.to]) else token)
  {
    LineEndMeans(s, l.from, l.to);
  }

  /** A comment that something follows is a line. */
  lemma {:induction false} CommentMeans(c: Config, s: seq<byte>, eof: bool, d: nat, token: seq<byte>) returns (l: Span)
    requires d <= |s| && ScanComment(c, s, eof, d, token).Comment? && ScanComment(c, s, eof, d, token).pos < |s|
    ensures CommentLine(s, l) && l.from == d
    ensures ScanComment(c, s, eof, d, token)
            == Comment(l.Behind(), if c.comments then token + Trimmed(s[l.from..l.to]) else token)
  {
    l := Span(d, LineEnd(s, d).value);
    LineEndMeans(s, d, l.to);
  }

  /** The token after the comment line l. */
  function WithLine(c: Config, s: seq<byte>, l: Span, token: seq<byte>): (t: seq<byte>)
    requires CommentLine(s, l)
  {
    if c.comments then token + Trimmed(s[l.from..l.to]) + [NL] else token
  }

  lemma {:induction false} PrefaceCons(c: Config, s: seq<byte>, l: Span, ls: seq<Span>, token: seq<byte>)
    requires CommentLine(s, l)
    ensures token + Preface(c, s, [l] + ls) == WithLine(c, s, l, token) + Preface(c, s, ls)
  {
    var line := Trimmed(s[l.from..l.to]);
    assert ([l] + ls)[1..] == ls;
    Assoc(token, line, [NL]);
    Assoc(token, line + [NL], Kept(s, ls));
  }

  /** What a scan from p with the token so far has found. */
  ghost predicate Found(c: Config, s: seq<byte>, p: nat, token: seq<byte>, r: Scanned, ls: seq<Span>, d: nat,
                        rs: seq<Rune>, e: nat)
  {
    && Leads(s, p, ls, d) && StatementAt(c, None, s, d, rs, e, r.pos)
    && r.token == token + Preface(c, s, ls) + Unbroken(s[d..e])
  }

  lemma {:induction false} FoundCons(c: Config, s: seq<byte>, p: nat, token: seq<byte>, r: Scanned, l: Span,
                                     ls: seq<Span>, d: nat, rs: seq<Rune>, e: nat)
    requires p <= l.from && Spaces(s, p, l.from) && CommentLine(s, l)
    requires Found(c, s, l.Behind(), WithLine(c, s, l, token), r, ls, d, rs, e)
    ensures Found(c, s, p, token, r, [l] + ls, d, rs, e)
  {
    PrefaceCons(c, s, l, ls, token);
    assert ([l] + ls)[1..] == ls;
  }

  lemma {:induction false} FoundFirst(c: Config, s: seq<byte>, p: nat, token: seq<byte>, r: Scanned, d: nat)
      returns (rs: seq<Rune>, e: nat)
    requires p <= d <= |s| && Spaces(s, p, d) && Next(s, d).Some? && !IsSpace(Next(s, d).value.r) && !Dashes(s, d)
    requires ScanStatement(c, RunesOf(s), d, token) == Some(r)
    ensures Found(c, s, p, token, r, [], d, rs, e)
  {
    RunesOfReads(s);
    rs, e := StatementMeans(c, RunesOf(s), s, d, token, r);
    assert Preface(c, s, []) == [] && token + [] == token;
  }

  /** One step of the scan: after space a statement follows, or a comment line. */
  lemma {:induction false} ScanStep(c: Config, s: seq<byte>, eof: bool, p: nat, token: seq<byte>, r: Scanned)
      returns (l: Option<Span>, d: nat, rs: seq<Rune>, e: nat)
    requires p <= |s| && ScanFrom(c, s, eof, p, token) == Some(r)
    ensures l.None? ==> Found(c, s, p, token, r, [], d, rs, e)
    ensures l.Some? ==>
              && p <= l.value.from && Spaces(s, p, l.value.from) && CommentLine(s, l.value)
              && ScanFrom(c, s, eof, l.value.Behind(), WithLine(c, s, l.value, token)) == Some(r)
  {
    RunesOfReads(s);
    d := Space(RunesOf(s), p).value;
    SpaceMeans(RunesOf(s), s, p, d);
    var m := ScanComment(c, s, eof, d, token);
    l, rs, e := None, [], 0;
    if m.NoComment? {
      rs, e := FoundFirst(c, s, p, token, r, d);
    } else {
      var line := CommentMeans(c, s, eof, d, token);
      l := Some(line);
    }
  }

  /** The scan of a script finds statements ... */
  lemma {:induction false} ScanMeans(c: Config, s: seq<byte>, eof: bool, p: nat, token: seq<byte>, r: Scanned)
      returns (ls: seq<Span>, d: nat, rs: seq<Rune>, e: nat)
    requires p <= |s| && ScanFrom(c, s, eof, p, token) == Some(r)
    ensures Found(c, s, p, token, r, ls, d, rs, e)
    decreases |s| - p
  {
    var l;
    l, d, rs, e := ScanStep(c, s, eof, p, token, r);
    ls := [];
    if l.Some? {
      ls, d, rs, e := ScanMeans(c, s, eof, l.value.Behind(), WithLine(c, s, l.value, token), r);
      FoundCons(c, s, p, token, r, l.value, ls, d, rs, e);
      ls := [l.value] + ls;
    }
  }

  /** A comment line in front of what is found. */
  lemma {:induction false} LineScanned(c: Config, s: seq<byte>, p: nat, token: seq<byte>, l: Span)
    requires p <= l.from && Spaces(s, p, l.from) && CommentLine(s, l)
    ensures ScanFrom(c, s, true, p, token) == ScanFrom(c, s, true, l.Behind(), WithLine(c, s, l, token))
  {
    RunesOfReads(s);
    Dash(s, l.from);
    SpaceMeans(RunesOf(s), s, p, l.from);
    CommentFound(c, s, true, token, l);
  }

  lemma {:induction false} FirstScanned(c: Config, s: seq<byte>, p: nat, token: seq<byte>, d: nat, rs: seq<Rune>,
                                        e: nat, pos: nat)
    requires p <= |s| && Leads(s, p, [], d) && StatementAt(c, None, s, d, rs, e, pos)
    ensures ScanFrom(c, s, true, p, token) == Some(Scanned(pos, token + Unbroken(s[d..e])))
  {
    RunesOfReads(s);
    SpaceMeans(RunesOf(s), s, p, d);
    StatementFound(c, RunesOf(s), s, d, token, rs, e, pos);
  }

  /** ... and, at the end of the script, all of them. */
  lemma {:induction false} ScanFinds(c: Config, s: seq<byte>, p: nat, token: seq<byte>, r: Scanned, ls: seq<Span>,
                                     d: nat, rs: seq<Rune>, e: nat)
    requires p <= |s| && Found(c, s, p, token, r, ls, d, rs, e)
    ensures ScanFrom(c, s, true, p, token) == Some(r)
    decreases |ls|
  {
    if |ls| == 0 {
      FirstScanned(c, s, p, token, d, rs, e, r.pos);
      assert Preface(c, s, ls) == [] && token + [] == token;
    } else {
      FoundRest(c, s, p, token, r, ls[0], ls[1..], ls, d, rs, e);
      ScanFinds(c, s, ls[0].Behind(), WithLine(c, s, ls[0], token), r, ls[1..], d, rs, e);
      LineScanned(c, s, p, token, ls[0]);
    }
  }

  lemma {:induction false} FoundRest(c: Config, s: seq<byte>, p: nat, token: seq<byte>, r: Scanned, l: Span,
                                     rest: seq<Span>, ls: seq<Span>, d: nat, rs: seq<Rune>, e: nat)
    requires Found(c, s, p, token, r, ls, d, rs, e) && |ls| > 0 && l == ls[0] && rest == ls[1..]
    ensures p <= l.from && Spaces(s, p, l.from) && CommentLine(s, l)
    ensures Found(c, s, l.Behind(), WithLine(c, s, l, token), r, rest, d, rs, e)
  {
    PrefaceCons(c, s, l, rest, token);
    assert [l] + rest == ls;
  }

  lemma Dash(s: seq<byte>, p: nat)
    requires p < |s| && s[p] == MINUS
    ensures Next(s, p) == Some(RuneAt(MINUS, 1)) && !IsSpace(MINUS)
  {
  }

  /** What the split function finds on a script from p on is a statement with its token. */
  lemma {:induction false} ScanIsToken(c: Config, s: seq<byte>, eof: bool, p: nat, pos: nat, token: seq<byte>)
    requires p <= |s| && ScanFrom(c, s, eof, p, []) == Some(Scanned(pos, token))
    ensures TokenAt(c, s, p, pos, token)
  {
    var ls, d, rs, e := ScanMeans(c, s, eof, p, [], Scanned(pos, token));
    NothingFirst(Preface(c, s, ls));
    assert TokenParts(c, s, p, pos, token, ls, d, rs, e);
  }

  /** At the end of the script it finds the statement, if there is one. */
  lemma {:induction false} TokenIsScanned(c: Config, s: seq<byte>, p: nat, pos: nat, token: seq<byte>)
    requires p <= |s| && TokenAt(c, s, p, pos, token)
    ensures ScanFrom(c, s, true, p, []) == Some(Scanned(pos, token))
  {
    var ls: seq<Span>, d: nat, rs: seq<Rune>, e: nat :| TokenParts(c, s, p, pos, token, ls, d, rs, e);
    NothingFirst(Preface(c, s, ls));
    ScanFinds(c, s, p, [], Scanned(pos, token), ls, d, rs, e);
  }

  /** There is no statement from p on. */
  ghost predicate NoToken(c: Config, s: seq<byte>, p: nat)
  {
    forall pos: nat, token :: !TokenAt(c, s, p, pos, token)
  }

  lemma {:induction false} NothingScanned(c: Config, s: seq<byte>, p: nat)
    requires p <= |s| && ScanFrom(c, s, true, p, []).None?
    ensures NoToken(c, s, p)
  {
    forall pos: nat, token
      ensures !TokenAt(c, s, p, pos, token)
    {
      if TokenAt(c, s, p, pos, token) {
        TokenIsScanned(c, s, p, pos, token);
      }
    }
  }

  lemma NothingFirst(a: seq<byte>)
    ensures [] + a == a
  {
  }

  // ---------------------------------------------------------------- the scanner

  class Scanner {
    const c: Config
    var data: seq<byte>
    var atEOF: bool
    var token: seq<byte>

    constructor (c: Config)
      ensures this.c == c
    {
      this.c := c;
      data, atEOF, token := [], false, [];
    }

    /** The data are those of s from position p on. */
    ghost predicate At(s: seq<byte>, p: nat)
      reads this
    {
      p <= |s| && data == s[p..]
    }

    method NextRune(ghost rd: Runes, ghost s: seq<byte>, ghost p: nat) returns (x: Option<RuneAt>)
      requires At(s, p) && Reads(rd, s)
      ensures x == Read(rd, p)
    {
      assert Read(rd, p) == Next(s, p);
      if |data| < 1 {
        return None;
      }
      if data[0] < RUNE_SELF {
        return Some(RuneAt(data[0], 1));
      }
      var rn := DecodeRune(data);
      if rn.1 > 1 {
        return Some(RuneAt(rn.0, rn.1));
      }
      x := None;
    }

    /** readRune, when there is a rune. */
    method Advance(x: RuneAt, ghost rd: Runes, ghost s: seq<byte>, ghost p: nat)
      requires At(s, p) && rd.size == |s| && Read(rd, p) == Some(x)
      modifies this`data
      ensures At(s, p + x.w)
    {
      assert data[x.w..] == s[p + x.w..];
      data := data[x.w..];
    }

    method ScanWhitespace(ghost rd: Runes, ghost s: seq<byte>, ghost p0: nat) returns (ok: bool, ghost p: nat)
      requires At(s, p0) && Reads(rd, s)
      modifies this`data
      ensures ok <==> Space(rd, p0).Some?
      ensures ok ==> p == Space(rd, p0).value && At(s, p)
    {
      p := p0;
      while true
        invariant At(s, p) && Space(rd, p) == Space(rd, p0)
        decreases |s| - p
      {
        var x := NextRune(rd, s, p);
        if x.None? {
          return false, p;
        }
        if !IsSpace(x.value.r) {
          return true, p;
        }
        Advance(x.value, rd, s, p);
        p := p + x.value.w;
      }
    }

    method FindLineEnd(ghost s: seq<byte>, ghost p: nat) returns (i: Option<nat>)
      requires At(s, p)
      ensures i.Some? <==> LineEnd(s, p).Some?
      ensures i.Some? ==> p + i.value == LineEnd(s, p).value
    {
      for k := 0 to |data|
        invariant LineEnd(s, p) == LineEnd(s, p + k)
      {
        assert data[k] == s[p + k];
        if data[k] == NL {
          return Some(k);
        }
      }
      i := None;
    }

    /** scanComment. */
    method ReadComment(ghost s: seq<byte>, ghost p: nat) returns (more: bool, found: bool)
      requires At(s, p)
      modifies this`data, this`token
      ensures var r := ScanComment(c, s, atEOF, p, old(token));
              && (more <==> r.More?) && (!more && found <==> r.Comment?)
              && (r.NoComment? ==> At(s, p) && token == old(token))
              && (r.Comment? ==> At(s, r.pos) && token == r.token)
    {
      if |data| < 2 {
        return !atEOF, false;
      }
      if data[0] != MINUS || data[1] != MINUS {
        return false, false;
      }
      var i := FindLineEnd(s, p);
      if i.Some? {
        assert data[..i.value] == s[p..p + i.value] && data[i.value + 1..] == s[p + i.value + 1..];
        if c.comments {
          token := token + Line(data[..i.value]);
        }
        data := data[i.value + 1..];
        return false, true;
      }
      if atEOF {
        if c.comments {
          token := token + Line(data);
        }
        data := [];
        return false, true;
      }
      more, found := true, false;
    }

    method ReadString(quote: Rune, ghost rd: Runes, ghost s: seq<byte>, ghost p0: nat) returns (ok: bool, ghost p: nat)
      requires At(s, p0) && Reads(rd, s)
      modifies this`data, this`token
      ensures var r := ScanString(rd, p0, quote, old(token) + EncodeRune(quote));
              && (ok <==> r.Some?)
              && (ok ==> At(s, p) && Scanned(p, token) == r.value)
    {
      token := token + EncodeRune(quote);
      p := p0;
      ghost var all := ScanString(rd, p0, quote, token);
      while true
        invariant At(s, p) && ScanString(rd, p, quote, token) == all
        decreases |s| - p
      {
        var x := NextRune(rd, s, p);
        if x.None? {
          return false, p;
        }
        Advance(x.value, rd, s, p);
        p := p + x.value.w;
        var r := x.value.r;
        if r == quote {
          token := token + EncodeRune(r);
          var y := NextRune(rd, s, p);
          if y.None? {
            return false, p;
          }
          if y.value.r != quote {
            return true, p;
          }
        } else if r == NL || r == CR {
        } else {
          token := token + EncodeRune(r);
        }
      }
    }

    method ReadStatement(ghost rd: Runes, ghost s: seq<byte>, ghost p0: nat) returns (ok: bool, ghost p: nat)
      requires At(s, p0) && Reads(rd, s)
      modifies this`data, this`token
      ensures var r := ScanStatement(c, rd, p0, old(token));
              && (ok <==> r.Some?)
              && (ok ==> At(s, p) && Scanned(p, token) == r.value)
    {
      p := p0;
      ghost var all := ScanStatement(c, rd, p0, token);
      while true
        invariant At(s, p) && ScanStatement(c, rd, p, token) == all
        decreases |s| - p
      {
        var x := NextRune(rd, s, p);
        if x.None? {
          return false, p;
        }
        Advance(x.value, rd, s, p);
        p := p + x.value.w;
        var r := x.value.r;
        if r == SINGLE_QUOTE || r == DOUBLE_QUOTE {
          ok, p := ReadString(r, rd, s, p);
          if !ok {
            return;
          }
        } else if r == c.separator {
          return true, p;
        } else if !(r == NL || r == CR) {
          token := token + EncodeRune(r);
        }
      }
    }

    method ReadAll(ghost rd: Runes, ghost s: seq<byte>, ghost p0: nat) returns (ok: bool, ghost p: nat)
      requires At(s, p0) && Reads(rd, s) && rd == RunesOf(s)
      modifies this`data, this`token
      ensures var r := ScanFrom(c, s, atEOF, p0, old(token));
              && (ok <==> r.Some?)
              && (ok ==> At(s, p) && Scanned(p, token) == r.value)
    {
      p := p0;
      ghost var all := ScanFrom(c, s, atEOF, p0, token);
      while true
        invariant At(s, p) && ScanFrom(c, s, atEOF, p, token) == all
        decreases |s| - p
      {
        ok, p := ScanWhitespace(rd, s, p);
        if !ok {
          return;
        }
        ghost var r := ScanComment(c, s, atEOF, p, token);
        var more, found := ReadComment(s, p);
        if more {
          return false, p;
        }
        if !found {
          break;
        }
        p := r.pos;
        if c.comments {
          token := token + [NL];
        }
      }
      ok, p := ReadStatement(rd, s, p);
    }

    /**
      scan, the split function, on the data of s from position p on: how far to advance and the token,
      or that more data are needed. An empty token is nil.
     */
    method Scan(input: seq<byte>, eof: bool, ghost s: seq<byte>, ghost p: nat) returns (advance: nat, tok: seq<byte>)
      requires p <= |s| && input == s[p..]
      modifies this`data, this`atEOF, this`token
      ensures var r := ScanFrom(c, s, eof, p, []);
              && (r.Some? ==> advance == r.value.pos - p && tok == r.value.token)
              && (r.None? ==> advance == 0 && tok == [])
      ensures advance > 0 ==> TokenAt(c, s, p, p + advance, tok)
      ensures eof && advance == 0 ==> NoToken(c, s, p)
    {
      advance, tok := Split(input, eof, s, p);
      if advance > 0 {
        ScanIsToken(c, s, eof, p, p + advance, tok);
      } else if eof {
        NothingScanned(c, s, p);
      }
    }

    method Split(input: seq<byte>, eof: bool, ghost s: seq<byte>, ghost p: nat) returns (advance: nat, tok: seq<byte>)
      requires p <= |s| && input == s[p..]
      modifies this`data, this`atEOF, this`token
      ensures var r := ScanFrom(c, s, eof, p, []);
              && (r.Some? ==> advance == r.value.pos - p && tok == r.value.token)
              && (r.None? ==> advance == 0 && tok == [])
    {
      if eof && |input| == 0 {
        return 0, [];
      }
      data, atEOF, token := input, eof, [];
      RunesOfReads(s);
      var ok, _ := ReadAll(RunesOf(s), s, p);
      if !ok {
        return 0, [];
      }
      advance, tok := |input| - |data|, token;
    }
  }
}
