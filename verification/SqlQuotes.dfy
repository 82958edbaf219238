/**
  The strings of an SQL script as sqlscript/scan.go reads them, against those of SQL, where a quote within a
  string is written twice.
 */
module SqlQuotes {
  import opened Bytes
  import opened Utf8
  import opened SqlText
  import opened SqlScript

  /** The quote of the SQL string that rune i is in, if any: every quote of its kind ends or reopens a string. */
  function SqlOpen(rs: seq<Rune>, i: nat): (q: Option<Rune>)
    requires i <= |rs|
  {
    if i == 0 then None
    else
      var st, r := SqlOpen(rs, i - 1), rs[i - 1];
      if st.None? then (if IsQuote(r) then Some(r) else None)
      else if r == st.value then None
      else st
  }

  /** Runes i - 1 and i are a doubled quote within a string, and something else follows. */
  predicate Doubled(rs: seq<Rune>, i: nat)
  {
    0 < i < |rs| - 1 && rs[i - 1] == rs[i] && rs[i + 1] != rs[i] && SqlOpen(rs, i - 1) == Some(rs[i])
  }

  /** A quote behind the same quote. */
  predicate Repeated(rs: seq<Rune>, i: nat)
    requires i < |rs|
  {
    i > 0 && IsQuote(rs[i]) && rs[i] == rs[i - 1]
  }

  /** The scan takes the same runes for quoted as SQL does; repeated quotes are in strings either way. */
  ghost predicate Agrees(rs: seq<Rune>)
  {
    forall i :: 0 <= i < |rs| && !Repeated(rs, i) ==> Open(rs, i) == SqlOpen(rs, i)
  }

  /** Between the two quotes of a pair the scan is still in the string. */
  predicate Between(rs: seq<Rune>, i: nat)
  {
    0 < i < |rs| && rs[i - 1] == rs[i] && SqlOpen(rs, i - 1) == Some(rs[i]) && Open(rs, i) == Some(rs[i])
    && SqlOpen(rs, i).None?
  }

  lemma {:induction false} QuoteOf(rs: seq<Rune>, i: nat)
    requires i <= |rs|
    ensures SqlOpen(rs, i).Some? ==> IsQuote(SqlOpen(rs, i).value)
  {
    if i > 0 {
      QuoteOf(rs, i - 1);
    }
  }

  lemma {:induction false} InStep(rs: seq<Rune>, i: nat)
    requires i < |rs| && forall k :: 0 <= k < i ==> !Doubled(rs, k)
    ensures Open(rs, i) == SqlOpen(rs, i) || Between(rs, i)
  {
    if i > 0 {
      InStep(rs, i - 1);
      QuoteOf(rs, i - 1);
      if i > 1 {
        QuoteOf(rs, i - 2);
      }
      assert !Doubled(rs, i - 1);
    }
  }

  /** A doubled quote within a string sets the scan apart from SQL. */
  lemma {:induction false} OutOfStep(rs: seq<Rune>, i: nat)
    requires Doubled(rs, i) && forall k :: 0 <= k < i ==> !Doubled(rs, k)
    ensures !Agrees(rs)
  {
    InStep(rs, i - 1);
    QuoteOf(rs, i - 1);
    assert Open(rs, i - 1) == Some(rs[i]);
    assert Open(rs, i) == Some(rs[i]) && SqlOpen(rs, i).None?;
    assert Open(rs, i + 1).None? && SqlOpen(rs, i + 1) == Some(rs[i]);
    assert !Repeated(rs, i + 1);
  }

  lemma {:induction false} FirstDoubled(rs: seq<Rune>, i: nat) returns (f: nat)
    requires Doubled(rs, i)
    ensures Doubled(rs, f) && forall k :: 0 <= k < f ==> !Doubled(rs, k)
    decreases i
  {
    if k :| 0 <= k < i && Doubled(rs, k) {
      f := FirstDoubled(rs, k);
    } else {
      f := i;
    }
  }

  /**
    The strings of the scan are those of SQL exactly if no string has a doubled quote other than in front of
    its end.
   */
  lemma {:induction false} QuotingIff(rs: seq<Rune>)
    ensures Agrees(rs) <==> forall i: nat :: !Doubled(rs, i)
  {
    if i: nat :| Doubled(rs, i) {
      var f := FirstDoubled(rs, i);
      OutOfStep(rs, f);
    } else {
      forall i | 0 <= i < |rs| && !Repeated(rs, i)
        ensures Open(rs, i) == SqlOpen(rs, i)
      {
        InStep(rs, i);
        QuoteOf(rs, i - if i > 0 then 1 else 0);
      }
    }
  }

  /** The last rune, and no earlier one, is a separator outside the strings of SQL. */
  predicate SqlStatement(c: Config, rs: seq<Rune>)
  {
    && |rs| > 0 && rs[|rs| - 1] == c.separator && SqlOpen(rs, |rs| - 1).None?
    && forall i :: 0 <= i < |rs| - 1 && rs[i] == c.separator ==> SqlOpen(rs, i).Some?
  }

  /** Then its statements are those of SQL, too. */
  lemma {:induction false} SqlStatements(c: Config, rs: seq<Rune>)
    requires c.separator != 39 && c.separator != 34 && forall i: nat :: !Doubled(rs, i)
    ensures EndsStatement(c, rs) <==> SqlStatement(c, rs)
  {
    QuotingIff(rs);
    forall i | 0 <= i < |rs| && rs[i] == c.separator
      ensures Separates(c, None, rs, i) <==> SqlOpen(rs, i).None?
    {
      assert Open(rs, i) == SqlOpen(rs, i);
    }
  }

  /** The script 'a''b'; */
  const QUOTED: seq<byte> := [39, 97, 39, 39, 98, 39, 59]

  /** It is one statement of SQL, but the scan takes the last quote for the start of a string and finds none. */
  lemma DoubledQuote()
    ensures Spells(QUOTED, 0, [39, 97, 39, 39, 98, 39, 59], 7) && SqlStatement(DEFAULT, [39, 97, 39, 39, 98, 39, 59])
    ensures NoToken(DEFAULT, QUOTED, 0)
  {
    SpelledFrom(0);
    QuotedStatement();
    QuotedScanned();
    NothingScanned(DEFAULT, QUOTED, 0);
  }

  lemma QuotedStatement()
    ensures SqlStatement(DEFAULT, [39, 97, 39, 39, 98, 39, 59])
  {
    var rs: seq<Rune> := [39, 97, 39, 39, 98, 39, 59];
    assert SqlOpen(rs, 1) == Some(39) && SqlOpen(rs, 2) == Some(39) && SqlOpen(rs, 3) == None;
    assert SqlOpen(rs, 4) == Some(39) && SqlOpen(rs, 5) == Some(39) && SqlOpen(rs, 6) == None;
  }

  lemma {:induction false} SpelledFrom(i: nat)
    requires i <= 7
    ensures var rs: seq<Rune> := [39, 97, 39, 39, 98, 39, 59]; Spells(QUOTED, i, rs[i..], 7)
    decreases 7 - i
  {
    if i < 7 {
      SpelledFrom(i + 1);
      var rs: seq<Rune> := [39, 97, 39, 39, 98, 39, 59];
      assert rs[i..][1..] == rs[i + 1..];
      AsciiNext(QUOTED, i);
    }
  }

  lemma AsciiNext(s: seq<byte>, p: nat)
    requires p < |s| && s[p] < 0x80
    ensures Next(s, p) == Some(RuneAt(s[p], 1)) && Read(RunesOf(s), p) == Some(RuneAt(s[p], 1))
  {
  }

  lemma QuotedScanned()
    ensures ScanFrom(DEFAULT, QUOTED, true, 0, []).None?
  {
    var rd := RunesOf(QUOTED);
    forall i | 0 <= i < 7
      ensures Read(rd, i) == Some(RuneAt(QUOTED[i], 1))
    {
      AsciiNext(QUOTED, i);
    }
    var t := [39] + EncodeRune(97);
    assert Read(rd, 7).None?;
    var u := t + EncodeRune(39);
    assert ScanString(rd, 3, 39, u) == Some(Scanned(4, u + EncodeRune(39)));
    assert ScanString(rd, 2, 39, t) == ScanString(rd, 3, 39, u);
    assert ScanString(rd, 1, 39, [39]) == ScanString(rd, 2, 39, t);
    LastQuote(rd, u + EncodeRune(39));
    assert [] + EncodeRune(39) == [39];
    assert ScanStatement(DEFAULT, rd, 0, []).None?;
    assert Space(rd, 0) == Some(0);
  }

  lemma {:induction false} LastQuote(rd: Runes, token: seq<byte>)
    requires rd.size == 7 && Read(rd, 4) == Some(RuneAt(98, 1)) && Read(rd, 5) == Some(RuneAt(39, 1))
    requires Read(rd, 6) == Some(RuneAt(59, 1)) && Read(rd, 7).None?
    ensures ScanStatement(DEFAULT, rd, 4, token).None?
  {
    var t := token + EncodeRune(98);
    assert ScanString(rd, 7, 39, t + EncodeRune(39) + EncodeRune(59)).None?;
    assert ScanString(rd, 6, 39, t + EncodeRune(39)).None?;
    assert ScanStatement(DEFAULT, rd, 5, t).None?;
  }
}
