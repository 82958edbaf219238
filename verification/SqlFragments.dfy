/**
  The split function of sqlscript under bufio.Scanner: what happens when a script arrives in pieces.
 */
module SqlFragments {
  import opened Bytes
  import opened Utf8
  import opened SqlText
  import opened SqlScript

  // ---------------------------------------------------------------- prefixes

  lemma SameHead(p: seq<byte>, q: seq<byte>)
    requires ValidHead(p) && |q| >= SeqLen(p[0]) && forall i :: 0 <= i < SeqLen(p[0]) ==> q[i] == p[i]
    ensures ValidHead(q) && HeadRune(q) == HeadRune(p)
  {
  }

  /** A rune that ends within the shorter buffer is read in both. */
  lemma NextSame(s: seq<byte>, t: seq<byte>, p: nat)
    requires s <= t && p <= |s|
    ensures Next(s, p).Some? ==> Next(t, p) == Next(s, p)
    ensures Next(t, p).Some? && p + Next(t, p).value.w <= |s| ==> Next(s, p) == Next(t, p)
  {
    if Next(s, p).Some? {
      SameHead(s[p..], t[p..]);
    } else if Next(t, p).Some? && p + Next(t, p).value.w <= |s| {
      SameHead(t[p..], s[p..]);
    }
  }

  /** s and t agree on the runes that end within s. */
  ghost predicate SameRunes(s: Runes, t: Runes)
  {
    && s.size <= t.size
    && (forall p: nat :: Read(s, p).Some? ==> Read(t, p) == Read(s, p))
    && (forall p: nat :: Read(t, p).Some? && p + Read(t, p).value.w <= s.size ==> Read(s, p) == Read(t, p))
  }

  lemma RunesSame(s: seq<byte>, t: seq<byte>)
    requires s <= t
    ensures SameRunes(RunesOf(s), RunesOf(t))
  {
    forall p: nat
      ensures Read(RunesOf(s), p).Some? ==> Read(RunesOf(t), p) == Read(RunesOf(s), p)
      ensures Read(RunesOf(t), p).Some? && p + Read(RunesOf(t), p).value.w <= |s| ==>
                Read(RunesOf(s), p) == Read(RunesOf(t), p)
    {
      RunesOfReads(s);
      RunesOfReads(t);
      assert Read(RunesOf(s), p) == Next(s, p) && Read(RunesOf(t), p) == Next(t, p);
      if p <= |s| {
        NextSame(s, t, p);
      }
    }
  }

  // ---------------------------------------------------------------- stability: more data change nothing

  lemma {:induction false} SpaceStable(s: Runes, t: Runes, p: nat)
    requires SameRunes(s, t) && p <= s.size && Space(s, p).Some?
    ensures Space(t, p) == Space(s, p)
    decreases s.size - p
  {
    var x := Read(s, p).value;
    if IsSpace(x.r) {
      SpaceStable(s, t, p + x.w);
    }
  }

  lemma {:induction false} LineEndStable(s: seq<byte>, t: seq<byte>, p: nat)
    requires s <= t && p <= |s| && LineEnd(s, p).Some?
    ensures LineEnd(t, p) == LineEnd(s, p)
    decreases |s| - p
  {
    if s[p] != NL {
      LineEndStable(s, t, p + 1);
    }
  }

  lemma CommentStable(c: Config, s: seq<byte>, t: seq<byte>, e: bool, p: nat, token: seq<byte>)
    requires s <= t && p <= |s| && !ScanComment(c, s, false, p, token).More?
    ensures ScanComment(c, t, e, p, token) == ScanComment(c, s, false, p, token)
  {
    if s[p] == MINUS && s[p + 1] == MINUS {
      LineEndStable(s, t, p);
      var i := LineEnd(s, p).value;
      assert s[p..i] == t[p..i];
    }
  }

  lemma {:induction false} StringStable(s: Runes, t: Runes, p: nat, quote: Rune, token: seq<byte>)
    requires SameRunes(s, t) && p <= s.size && ScanString(s, p, quote, token).Some?
    ensures ScanString(t, p, quote, token) == ScanString(s, p, quote, token)
    decreases s.size - p
  {
    var x := Read(s, p).value;
    var q := p + x.w;
    if x.r == quote {
      if Read(s, q).value.r == quote {
        StringStable(s, t, q, quote, token + EncodeRune(x.r));
      }
    } else if x.r == NL || x.r == CR {
      StringStable(s, t, q, quote, token);
    } else {
      StringStable(s, t, q, quote, token + EncodeRune(x.r));
    }
  }

  lemma {:induction false} StatementStable(c: Config, s: Runes, t: Runes, p: nat, token: seq<byte>)
    requires SameRunes(s, t) && p <= s.size && ScanStatement(c, s, p, token).Some?
    ensures ScanStatement(c, t, p, token) == ScanStatement(c, s, p, token)
    decreases s.size - p
  {
    var x := Read(s, p).value;
    var q := p + x.w;
    if x.r == SINGLE_QUOTE || x.r == DOUBLE_QUOTE {
      StringStable(s, t, q, x.r, token + EncodeRune(x.r));
      var str := ScanString(s, q, x.r, token + EncodeRune(x.r)).value;
      StatementStable(c, s, t, str.pos, str.token);
    } else if x.r == c.separator {
    } else if x.r == NL || x.r == CR {
      StatementStable(c, s, t, q, token);
    } else {
      StatementStable(c, s, t, q, token + EncodeRune(x.r));
    }
  }

  /** A token found before the end of the script is found identically on every extension of the data. */
  lemma {:induction false} Stable(c: Config, s: seq<byte>, t: seq<byte>, e: bool, p: nat, token: seq<byte>)
    requires s <= t && p <= |s| && ScanFrom(c, s, false, p, token).Some?
    ensures ScanFrom(c, t, e, p, token) == ScanFrom(c, s, false, p, token)
    decreases |s| - p
  {
    RunesSame(s, t);
    SpaceStable(RunesOf(s), RunesOf(t), p);
    var d := Space(RunesOf(s), p).value;
    CommentStable(c, s, t, e, d, token);
    var m := ScanComment(c, s, false, d, token);
    if m.NoComment? {
      StatementStable(c, RunesOf(s), RunesOf(t), d, token);
    } else {
      Stable(c, s, t, e, m.pos, if c.comments then m.token + [NL] else m.token);
    }
  }

  // ---------------------------------------------------------------- locality: one byte of lookahead is enough

  lemma {:induction false} SpaceLocal(s: Runes, t: Runes, p: nat)
    requires SameRunes(s, t) && p <= s.size && Space(t, p).Some?
    requires var d := Space(t, p).value; d + Read(t, d).value.w <= s.size
    ensures Space(s, p) == Space(t, p)
    decreases s.size - p
  {
    var x := Read(t, p).value;
    if IsSpace(x.r) {
      SpaceBounds(t, p + x.w);
      SpaceLocal(s, t, p + x.w);
    }
  }

  lemma {:induction false} SpaceBounds(t: Runes, p: nat)
    requires p <= t.size && Space(t, p).Some?
    ensures p <= Space(t, p).value
  {
  }

  lemma {:induction false} LineEndLocal(s: seq<byte>, t: seq<byte>, p: nat)
    requires s <= t && p <= |s| && LineEnd(t, p).Some? && LineEnd(t, p).value < |s|
    ensures LineEnd(s, p) == LineEnd(t, p)
    decreases |s| - p
  {
    if t[p] != NL {
      LineEndLocal(s, t, p + 1);
    }
  }

  lemma {:induction false} StringLocal(s: Runes, t: Runes, p: nat, quote: Rune, token: seq<byte>, r: Scanned)
    requires SameRunes(s, t) && p <= s.size && ScanString(t, p, quote, token) == Some(r)
    requires r.pos <= s.size && Read(s, r.pos) == Read(t, r.pos)
    ensures ScanString(s, p, quote, token) == Some(r)
    decreases s.size - p
  {
    var x := Read(t, p).value;
    var q := p + x.w;
    StringReads(t, p, quote, token, r);
    if x.r == quote {
      if Read(t, q).value.r == quote {
        StringReads(t, q, quote, token + EncodeRune(x.r), r);
        StringLocal(s, t, q, quote, token + EncodeRune(x.r), r);
      }
    } else if x.r == NL || x.r == CR {
      StringLocal(s, t, q, quote, token, r);
    } else {
      StringLocal(s, t, q, quote, token + EncodeRune(x.r), r);
    }
  }

  /** A string includes its first rune. */
  lemma {:induction false} StringReads(t: Runes, p: nat, quote: Rune, token: seq<byte>, r: Scanned)
    requires p <= t.size && ScanString(t, p, quote, token) == Some(r)
    ensures Read(t, p).Some? && p + Read(t, p).value.w <= r.pos
  {
  }

  lemma {:induction false} StatementLocal(c: Config, s: Runes, t: Runes, p: nat, token: seq<byte>, r: Scanned)
    requires SameRunes(s, t) && p <= s.size && ScanStatement(c, t, p, token) == Some(r) && r.pos <= s.size
    ensures ScanStatement(c, s, p, token) == Some(r)
    decreases s.size - p
  {
    var x := Read(t, p).value;
    var q := p + x.w;
    StatementReads(c, t, p, token);
    if x.r == SINGLE_QUOTE || x.r == DOUBLE_QUOTE {
      var str := ScanString(t, q, x.r, token + EncodeRune(x.r)).value;
      QuotedLocal(c, s, t, q, x.r, token + EncodeRune(x.r), str, r);
      StatementLocal(c, s, t, str.pos, str.token, r);
    } else if x.r != c.separator {
      StatementLocal(c, s, t, q, if x.r == NL || x.r == CR then token else token + EncodeRune(x.r), r);
    }
  }

  /** A string that a statement goes on after. */
  lemma {:induction false} QuotedLocal(c: Config, s: Runes, t: Runes, q: nat, quote: Rune, token: seq<byte>,
                                       str: Scanned, r: Scanned)
    requires SameRunes(s, t) && q <= s.size && ScanString(t, q, quote, token) == Some(str)
    requires ScanStatement(c, t, str.pos, str.token) == Some(r) && r.pos <= s.size
    ensures ScanString(s, q, quote, token) == Some(str)
  {
    StatementReads(c, t, str.pos, str.token);
    StringLocal(s, t, q, quote, token, str);
  }

  /** A statement includes its first rune. */
  lemma {:induction false} StatementReads(c: Config, t: Runes, p: nat, token: seq<byte>)
    requires p <= t.size && ScanStatement(c, t, p, token).Some?
    ensures Read(t, p).Some? && p + Read(t, p).value.w <= ScanStatement(c, t, p, token).value.pos
  {
  }

  /** Whether or not at the end of the script: the scan looks at one byte after the statement at most. */
  lemma {:induction false} Local(c: Config, s: seq<byte>, t: seq<byte>, e: bool, p: nat, token: seq<byte>)
    requires s <= t && p <= |s| && ScanFrom(c, t, e, p, token).Some? && ScanFrom(c, t, e, p, token).value.pos < |s|
    ensures ScanFrom(c, s, false, p, token) == ScanFrom(c, t, e, p, token)
    decreases |s| - p
  {
    RunesSame(s, t);
    var d := Space(RunesOf(t), p).value;
    var m := ScanComment(c, t, e, d, token);
    if m.NoComment? {
      LocalStatement(c, RunesOf(s), RunesOf(t), p, d, token, ScanFrom(c, t, e, p, token).value);
    } else {
      LocalComment(c, s, t, e, p, d, token);
      var token' := if c.comments then m.token + [NL] else m.token;
      Local(c, s, t, e, m.pos, token');
    }
  }

  lemma {:induction false} LocalStatement(c: Config, s: Runes, t: Runes, p: nat, d: nat, token: seq<byte>, r: Scanned)
    requires SameRunes(s, t) && p <= s.size && Space(t, p) == Some(d) && ScanStatement(c, t, d, token) == Some(r)
             && r.pos <= s.size
    ensures Space(s, p) == Some(d) && d < r.pos && ScanStatement(c, s, d, token) == Some(r)
  {
    StatementReads(c, t, d, token);
    SpaceLocal(s, t, p);
    StatementLocal(c, s, t, d, token, r);
  }

  lemma {:induction false} LocalComment(c: Config, s: seq<byte>, t: seq<byte>, e: bool, p: nat, d: nat,
                                        token: seq<byte>)
    requires s <= t && p <= |s| && Space(RunesOf(t), p) == Some(d)
    requires ScanComment(c, t, e, d, token).Comment? && ScanComment(c, t, e, d, token).pos < |s|
    ensures Space(RunesOf(s), p) == Some(d) && ScanComment(c, s, false, d, token) == ScanComment(c, t, e, d, token)
  {
    assert t[d] == MINUS && t[d + 1] == MINUS;
    Ascii(t, d);
    RunesSame(s, t);
    SpaceLocal(RunesOf(s), RunesOf(t), p);
    LineEndLocal(s, t, d);
    var i := LineEnd(t, d).value;
    assert s[d..i] == t[d..i];
  }

  // ---------------------------------------------------------------- bufio.Scanner

  type Token = seq<byte>

  /** The statements of a script from position p on, empty ones included. */
  function Statements(c: Config, s: seq<byte>, p: nat): (ts: seq<Token>)
    requires p <= |s|
    decreases |s| - p
  {
    var r := ScanFrom(c, s, true, p, []);
    if r.None? then [] else [r.value.token] + Statements(c, s, r.value.pos)
  }

  function NonEmpty(ts: seq<Token>): (r: seq<Token>)
  {
    if |ts| == 0 then [] else (if ts[0] == [] then [] else [ts[0]]) + NonEmpty(ts[1..])
  }

  /** No statement with text follows an empty one. */
  predicate Tidy(ts: seq<Token>)
  {
    |ts| == 0 || if ts[0] == [] then NonEmpty(ts) == [] else Tidy(ts[1..])
  }

  /** The tokens that bufio.Scanner yields once it knows the end of the script: a nil token ends it. */
  function AtEnd(c: Config, s: seq<byte>, start: nat): (ts: seq<Token>)
    requires start <= |s|
    decreases |s| - start
  {
    var r := ScanFrom(c, s, true, start, []);
    if r.Some? && r.value.token != [] then [r.value.token] + AtEnd(c, s, r.value.pos) else []
  }

  /** The reads deliver the script up to each of the cuts in turn, then the rest with the end of file. */
  predicate Cuts(s: seq<byte>, end: nat, cuts: seq<nat>)
    decreases |cuts|
  {
    end <= |s| && (|cuts| > 0 ==> end < cuts[0] && Cuts(s, cuts[0], cuts[1..]))
  }

  /**
    The tokens that bufio.Scanner yields: it splits what it holds (from start to end) and reads more
    when there is no token, that is, also after it advanced over an empty statement.
   */
  function Drive(c: Config, s: seq<byte>, start: nat, end: nat, cuts: seq<nat>): (ts: seq<Token>)
    requires start <= end && Cuts(s, end, cuts)
    decreases |cuts|, end - start, 1
  {
    if start == end then ReadMore(c, s, start, end, cuts)
    else
      var r := ScanFrom(c, s[..end], false, start, []);
      if r.None? then ReadMore(c, s, start, end, cuts)
      else if r.value.token != [] then [r.value.token] + Drive(c, s, r.value.pos, end, cuts)
      else ReadMore(c, s, r.value.pos, end, cuts)
  }

  function ReadMore(c: Config, s: seq<byte>, start: nat, end: nat, cuts: seq<nat>): (ts: seq<Token>)
    requires start <= end && Cuts(s, end, cuts)
    decreases |cuts|, end - start, 0
  {
    if |cuts| == 0 then AtEnd(c, s, start) else Drive(c, s, start, cuts[0], cuts[1..])
  }

  lemma {:induction false} StatementsNext(c: Config, s: seq<byte>, start: nat, r: Scanned)
    requires start <= |s| && ScanFrom(c, s, true, start, []) == Some(r)
    ensures var ts, rest := Statements(c, s, start), Statements(c, s, r.pos);
            && (NonEmpty(ts) == (if r.token == [] then NonEmpty(rest) else [r.token] + NonEmpty(rest)))
            && (Tidy(ts) <==> if r.token == [] then NonEmpty(rest) == [] else Tidy(rest))
  {
    var ts := Statements(c, s, start);
    assert ts[1..] == Statements(c, s, r.pos);
  }

  /** A nil token at the end of the file loses the statements behind it. */
  lemma {:induction false} AtEndTokens(c: Config, s: seq<byte>, start: nat)
    requires start <= |s|
    ensures AtEnd(c, s, start) <= NonEmpty(Statements(c, s, start))
    ensures AtEnd(c, s, start) == NonEmpty(Statements(c, s, start)) <==> Tidy(Statements(c, s, start))
    decreases |s| - start
  {
    var r := ScanFrom(c, s, true, start, []);
    if r.Some? {
      StatementsNext(c, s, start, r.value);
      if r.value.token != [] {
        AtEndTokens(c, s, r.value.pos);
      }
    }
  }

  lemma {:induction false} BufferToken(c: Config, s: seq<byte>, start: nat, end: nat)
    requires start <= end <= |s| && ScanFrom(c, s[..end], false, start, []).Some?
    ensures ScanFrom(c, s, true, start, []) == ScanFrom(c, s[..end], false, start, [])
  {
    Stable(c, s[..end], s, true, start, []);
  }

  ghost predicate Loses(c: Config, s: seq<byte>, start: nat, out: seq<Token>)
    requires start <= |s|
  {
    && out <= NonEmpty(Statements(c, s, start))
    && (Tidy(Statements(c, s, start)) ==> out == NonEmpty(Statements(c, s, start)))
  }

  lemma {:induction false} LosesNext(c: Config, s: seq<byte>, start: nat, r: Scanned, out: seq<Token>)
    requires start <= |s| && ScanFrom(c, s, true, start, []) == Some(r) && Loses(c, s, r.pos, out)
    ensures Loses(c, s, start, if r.token == [] then out else [r.token] + out)
  {
    StatementsNext(c, s, start, r);
    var rest := Statements(c, s, r.pos);
    if NonEmpty(rest) == [] {
      TidyTail(rest);
    }
  }

  lemma {:induction false} TidyTail(ts: seq<Token>)
    requires NonEmpty(ts) == []
    ensures Tidy(ts)
  {
  }

  /**
    However the script is cut into reads, the tokens are statements of the script in order, without
    the empty ones; if no statement with text follows an empty one, they are all of them.
   */
  lemma {:induction false} DriveTokens(c: Config, s: seq<byte>, start: nat, end: nat, cuts: seq<nat>)
    requires start <= end && Cuts(s, end, cuts)
    ensures Loses(c, s, start, Drive(c, s, start, end, cuts))
    decreases |cuts|, end - start, 1
  {
    if start == end {
      ReadMoreTokens(c, s, start, end, cuts);
    } else {
      var r := ScanFrom(c, s[..end], false, start, []);
      if r.None? {
        ReadMoreTokens(c, s, start, end, cuts);
      } else {
        BufferToken(c, s, start, end);
        if r.value.token != [] {
          DriveTokens(c, s, r.value.pos, end, cuts);
          LosesNext(c, s, start, r.value, Drive(c, s, r.value.pos, end, cuts));
        } else {
          ReadMoreTokens(c, s, r.value.pos, end, cuts);
          LosesNext(c, s, start, r.value, ReadMore(c, s, r.value.pos, end, cuts));
        }
      }
    }
  }

  lemma {:induction false} ReadMoreTokens(c: Config, s: seq<byte>, start: nat, end: nat, cuts: seq<nat>)
    requires start <= end && Cuts(s, end, cuts)
    ensures Loses(c, s, start, ReadMore(c, s, start, end, cuts))
    decreases |cuts|, end - start, 0
  {
    if |cuts| == 0 {
      AtEndTokens(c, s, start);
    } else {
      DriveTokens(c, s, start, cuts[0], cuts[1..]);
    }
  }

  // ---------------------------------------------------------------- byte by byte

  /** The cuts of a reader that returns single bytes. */
  function Bytewise(n: nat, end: nat): (cuts: seq<nat>)
    requires end <= n
    decreases n - end
  {
    if end == n then [] else [end + 1] + Bytewise(n, end + 1)
  }

  lemma {:induction false} BytewiseCuts(s: seq<byte>, end: nat)
    requires end <= |s|
    ensures Cuts(s, end, Bytewise(|s|, end))
    decreases |s| - end
  {
    if end < |s| {
      BytewiseCuts(s, end + 1);
      assert Bytewise(|s|, end)[1..] == Bytewise(|s|, end + 1);
    }
  }

  /** One byte is never enough to find a statement before the end of the script. */
  lemma {:induction false} OneByte(c: Config, s: seq<byte>, p: nat)
    requires |s| == p + 1
    ensures ScanFrom(c, s, false, p, []).None?
  {
    var rd := RunesOf(s);
    var x := Read(rd, p);
    if x.Some? && IsSpace(x.value.r) {
      assert Read(rd, p + 1).None?;
      assert Space(rd, p + 1).None?;
    }
  }

  /** The bytes held are no more than the statement and one byte, or the split of one byte less found nothing. */
  ghost predicate Tight(c: Config, s: seq<byte>, start: nat, end: nat)
    requires start <= end <= |s|
  {
    end <= start + 1 || ScanFrom(c, s[..end - 1], false, start, []).None?
  }

  lemma {:induction false} TightAfter(c: Config, s: seq<byte>, start: nat, end: nat, r: Scanned)
    requires start < end <= |s| && Tight(c, s, start, end) && ScanFrom(c, s[..end], false, start, []) == Some(r)
    ensures start < r.pos <= end <= r.pos + 1
  {
    if end > r.pos + 1 {
      Local(c, s[..end - 1], s[..end], false, start, []);
      assert false;
    }
  }

  /** With the whole script read and no token found in it, at most a last statement is left. */
  lemma {:induction false} LastOnly(c: Config, s: seq<byte>, start: nat)
    requires start <= |s| && (|s| <= start + 1 || ScanFrom(c, s, false, start, []).None?)
    ensures AtEnd(c, s, start) == NonEmpty(Statements(c, s, start))
  {
    var r := ScanFrom(c, s, true, start, []);
    if r.Some? {
      StatementsNext(c, s, start, r.value);
      if r.value.pos < |s| {
        Local(c, s, s, true, start, []);
        assert false;
      }
      assert ScanFrom(c, s, true, |s|, []).None?;
      assert Statements(c, s, |s|) == [];
    }
  }

  lemma {:induction false} BytewiseTokens(c: Config, s: seq<byte>, start: nat, end: nat)
    requires start <= end <= |s| && Tight(c, s, start, end) && Cuts(s, end, Bytewise(|s|, end))
    ensures Drive(c, s, start, end, Bytewise(|s|, end)) == NonEmpty(Statements(c, s, start))
    decreases |s| - end, end - start, 1
  {
    if start == end {
      BytewiseMore(c, s, start, end);
    } else {
      var r := ScanFrom(c, s[..end], false, start, []);
      if r.None? {
        BytewiseMore(c, s, start, end);
      } else {
        TightAfter(c, s, start, end, r.value);
        BufferToken(c, s, start, end);
        StatementsNext(c, s, start, r.value);
        if r.value.token != [] {
          BytewiseTokens(c, s, r.value.pos, end);
        } else {
          if end == r.value.pos + 1 {
            OneByte(c, s[..end], r.value.pos);
          }
          BytewiseMore(c, s, r.value.pos, end);
        }
      }
    }
  }

  lemma {:induction false} BytewiseMore(c: Config, s: seq<byte>, start: nat, end: nat)
    requires start <= end <= |s| && Cuts(s, end, Bytewise(|s|, end))
    requires end <= start || ScanFrom(c, s[..end], false, start, []).None?
    ensures ReadMore(c, s, start, end, Bytewise(|s|, end)) == NonEmpty(Statements(c, s, start))
    decreases |s| - end, end - start, 0
  {
    if end == |s| {
      assert s[..end] == s;
      LastOnly(c, s, start);
    } else {
      assert Bytewise(|s|, end)[1..] == Bytewise(|s|, end + 1);
      BytewiseTokens(c, s, start, end + 1);
    }
  }

  /**
    Fragmentation independence: every way of cutting the script into reads yields the tokens of the
    whole script at once, exactly if no statement with text follows an empty one.
   */
  lemma {:induction false} FragmentationIndependence(c: Config, s: seq<byte>)
    ensures (forall cuts :: Cuts(s, 0, cuts) ==> Drive(c, s, 0, 0, cuts) == Drive(c, s, 0, 0, []))
            <==> Tidy(Statements(c, s, 0))
  {
    AtEndTokens(c, s, 0);
    BytewiseCuts(s, 0);
    BytewiseTokens(c, s, 0, 0);
    if Tidy(Statements(c, s, 0)) {
      forall cuts | Cuts(s, 0, cuts)
        ensures Drive(c, s, 0, 0, cuts) == Drive(c, s, 0, 0, [])
      {
        DriveTokens(c, s, 0, 0, cuts);
      }
    } else {
      assert Drive(c, s, 0, 0, Bytewise(|s|, 0)) != Drive(c, s, 0, 0, []);
    }
  }

  const LOST_SCRIPT: seq<byte> := [59, 59, 97, 59]

  /** The script ";;a;": read at once it yields nothing, read byte by byte it yields "a". */
  lemma LostStatement()
    ensures Drive(DEFAULT, LOST_SCRIPT, 0, 0, []) == []
    ensures Cuts(LOST_SCRIPT, 0, Bytewise(|LOST_SCRIPT|, 0))
    ensures Drive(DEFAULT, LOST_SCRIPT, 0, 0, Bytewise(|LOST_SCRIPT|, 0)) == [[97]]
  {
    LostStatements();
    BytewiseCuts(LOST_SCRIPT, 0);
    BytewiseTokens(DEFAULT, LOST_SCRIPT, 0, 0);
  }

  lemma LostStatements()
    ensures NonEmpty(Statements(DEFAULT, LOST_SCRIPT, 0)) == [[97]] && AtEnd(DEFAULT, LOST_SCRIPT, 0) == []
  {
    var s := LOST_SCRIPT;
    Ascii(s, 0);
    Ascii(s, 1);
    Ascii(s, 2);
    Ascii(s, 3);
    assert ScanFrom(DEFAULT, s, true, 0, []) == Some(Scanned(1, []));
    assert ScanFrom(DEFAULT, s, true, 1, []) == Some(Scanned(2, []));
    assert [] + EncodeRune(97) == [97];
    assert ScanStatement(DEFAULT, RunesOf(s), 3, [97]) == Some(Scanned(4, [97]));
    assert ScanStatement(DEFAULT, RunesOf(s), 2, []) == Some(Scanned(4, [97]));
    assert ScanFrom(DEFAULT, s, true, 2, []) == Some(Scanned(4, [97]));
    assert ScanFrom(DEFAULT, s, true, 4, []) == None;
    StatementsNext(DEFAULT, s, 0, Scanned(1, []));
    StatementsNext(DEFAULT, s, 1, Scanned(2, []));
    StatementsNext(DEFAULT, s, 2, Scanned(4, [97]));
    assert Statements(DEFAULT, s, 4) == [];
  }

  lemma Ascii(s: seq<byte>, p: nat)
    requires p < |s| && s[p] < 0x80
    ensures Read(RunesOf(s), p) == Some(RuneAt(s[p], 1))
  {
    assert Next(s, p) == Some(RuneAt(s[p], 1));
  }
}
