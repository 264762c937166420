/**
 * How the generator turns one cell of a data row into a SQL literal
 * (the conditional expression inside `generate_insert_queries`), and the
 * reading of such a literal back, which shows what the rendering promises.
 */
module Literal {

  datatype Option<T> = None | Some(value: T)

  /**
   * A cell as pandas hands it over. `Str` is a Python `str`; `Null` is a
   * non-string value for which `pd.isnull` holds (None, NaN, NaT); `Other`
   * is any other value, carried as the text `str()` gives for it.
   */
  datatype Cell = Str(s: string) | Null | Other(rendered: string)

  /**
   * The escaped text of a SQL string: quotes only in adjacent pairs, so no
   * lone `'` that would end the literal.
   */
  predicate PairedQuotes(t: string)
    decreases |t|
  {
    if t == [] then true
    else if t[0] != '\'' then PairedQuotes(t[1..])
    else |t| >= 2 && t[1] == '\'' && PairedQuotes(t[2..])
  }

  /** `s.replace("'", "''")`: every quote doubled, every other character kept. */
  function Escape(s: string): (r: string)
    ensures PairedQuotes(r)
    ensures |r| >= |s|
  {
    if s == [] then []
    else
      var rest := Escape(s[1..]);
      if s[0] == '\'' then
        assert ("''" + rest)[2..] == rest;
        "''" + rest
      else
        assert ([s[0]] + rest)[1..] == rest;
        [s[0]] + rest
  }

  /** The inverse reading: each `''` becomes one `'`. */
  function Undouble(t: string): string
    decreases |t|
  {
    if t == [] then []
    else if |t| >= 2 && t[0] == '\'' && t[1] == '\'' then "'" + Undouble(t[2..])
    else [t[0]] + Undouble(t[1..])
  }

  /** The literal for one cell: the string test comes first, then the null test. */
  function Render(c: Cell): (r: string)
    ensures c.Str? ==> |r| >= 2 && r[0] == '\'' && r[|r| - 1] == '\'' && PairedQuotes(r[1..|r| - 1])
    ensures c.Str? ==> r != "NULL"
    ensures c.Null? ==> r == "NULL"
    ensures c.Other? ==> r == c.rendered
  {
    match c
    case Str(s) =>
      var lit := "'" + Escape(s) + "'";
      assert lit[1..|lit| - 1] == Escape(s);
      lit
    case Null => "NULL"
    case Other(text) => text
  }

  /** Drops the outer quotes of a string literal and undoubles the quotes inside. */
  function Unquote(lit: string): Option<string>
  {
    if |lit| >= 2 && lit[0] == '\'' && lit[|lit| - 1] == '\'' then Some(Undouble(lit[1..|lit| - 1]))
    else None
  }

  // ---------------------------------------------------------------------
  // Escaping round-trips
  // ---------------------------------------------------------------------

  lemma {:induction false} UndoubleEscape(s: string)
    ensures Undouble(Escape(s)) == s
  {
    if s != [] {
      UndoubleEscape(s[1..]);
      var rest := Escape(s[1..]);
      if s[0] == '\'' {
        assert ("''" + rest)[2..] == rest;
      } else {
        assert ([s[0]] + rest)[1..] == rest;
      }
      assert [s[0]] + s[1..] == s;
    }
  }

  /** Every text with paired quotes is the escaping of something: `PairedQuotes` is exactly the image of `Escape`. */
  lemma {:induction false} EscapeUndouble(t: string)
    requires PairedQuotes(t)
    ensures Escape(Undouble(t)) == t
    decreases |t|
  {
    if t != [] {
      if t[0] == '\'' {
        EscapeUndouble(t[2..]);
        assert ("'" + Undouble(t[2..]))[1..] == Undouble(t[2..]);
        assert "''" + t[2..] == t;
      } else {
        EscapeUndouble(t[1..]);
        assert ([t[0]] + Undouble(t[1..]))[1..] == Undouble(t[1..]);
        assert [t[0]] + t[1..] == t;
      }
    }
  }

  /** A string without quotes is copied through unchanged. */
  lemma {:induction false} EscapeNoQuote(s: string)
    requires forall i :: 0 <= i < |s| ==> s[i] != '\''
    ensures Escape(s) == s
  {
    if s != [] {
      EscapeNoQuote(s[1..]);
      assert [s[0]] + s[1..] == s;
    }
  }

  /** Stripping the outer quotes of a rendered string cell and undoubling recovers the string. */
  lemma {:induction false} StrRoundTrip(s: string)
    ensures Unquote(Render(Str(s))) == Some(s)
  {
    var lit := "'" + Escape(s) + "'";
    assert lit[1..|lit| - 1] == Escape(s);
    UndoubleEscape(s);
  }

  /** Distinct strings render as distinct literals. */
  lemma {:induction false} RenderStrInjective(s1: string, s2: string)
    requires Render(Str(s1)) == Render(Str(s2))
    ensures s1 == s2
  {
    StrRoundTrip(s1);
    StrRoundTrip(s2);
  }

  /** The string test comes before the null test: the string "NULL" is quoted. */
  lemma {:induction false} RenderNullString()
    ensures Render(Str("NULL")) == "'NULL'"
    ensures Render(Null) == "NULL"
  {
    EscapeNoQuote("NULL");
  }

  // ---------------------------------------------------------------------
  // Reading a literal back, as a SQL lexer does
  // ---------------------------------------------------------------------

  /**
   * A SQL string lexer after the opening quote: `''` stands for one quote and
   * a lone `'` ends the string. Gives the content and the text after the
   * closing quote, which is always shorter.
   */
  function LexBody(t: string): (r: Option<(string, string)>)
    ensures r.Some? ==> |r.value.1| < |t|
    decreases |t|
  {
    if t == [] then None
    else if t[0] == '\'' then
      if |t| >= 2 && t[1] == '\'' then
        match LexBody(t[2..])
        case None => None
        case Some(p) => Some(("'" + p.0, p.1))
      else Some(([], t[1..]))
    else
      match LexBody(t[1..])
      case None => None
      case Some(p) => Some(([t[0]] + p.0, p.1))
  }

  /** What the lexer reads is the escaping of the content it returns, then the closing quote. */
  lemma {:induction false} LexBodySound(t: string)
    requires LexBody(t).Some?
    ensures t == Escape(LexBody(t).value.0) + "'" + LexBody(t).value.1
    decreases |t|
  {
    var p := LexBody(t).value;
    if t[0] == '\'' {
      if |t| >= 2 && t[1] == '\'' {
        LexBodySound(t[2..]);
        var q := LexBody(t[2..]).value;
        assert p.0 == "'" + q.0;
        assert p.0[1..] == q.0;
        assert t == "''" + t[2..];
      } else {
        assert t == "'" + t[1..];
      }
    } else {
      LexBodySound(t[1..]);
      var q := LexBody(t[1..]).value;
      assert p.0 == [t[0]] + q.0;
      assert p.0[1..] == q.0;
      assert t == [t[0]] + t[1..];
    }
  }

  /**
   * The escaped text of `s` and its closing quote are read back as exactly
   * `s`, and reading stops right there, provided the next character is not
   * itself a quote: no cell content can end its literal early.
   */
  lemma {:induction false} LexEscaped(s: string, rest: string)
    requires rest == [] || rest[0] != '\''
    ensures LexBody(Escape(s) + "'" + rest) == Some((s, rest))
  {
    var t := Escape(s) + "'" + rest;
    if s == [] {
      assert t == "'" + rest;
      assert t[1..] == rest;
    } else {
      var tail := Escape(s[1..]) + "'" + rest;
      LexEscaped(s[1..], rest);
      var head := if s[0] == '\'' then "''" else [s[0]];
      assert Escape(s) == head + Escape(s[1..]);
      assert t == head + tail;
      assert t[|head|..] == tail;
      assert [s[0]] + s[1..] == s;
    }
  }

  // ---------------------------------------------------------------------
  // Reading any literal back
  // ---------------------------------------------------------------------

  /** The length of the leading text before the first `,` or `)`. */
  function PlainLen(t: string): (n: nat)
    ensures n <= |t|
    ensures n == |t| || t[n] == ',' || t[n] == ')'
  {
    if t == [] || t[0] == ',' || t[0] == ')' then 0 else 1 + PlainLen(t[1..])
  }

  /**
   * The `str()` text of a non-null, non-string value is read back
   * unambiguously when it is non-empty, does not start with a quote, holds
   * no `,` or `)` and is not the word NULL (true of integers, for example).
   * The reader takes such text as one value up to the next `,` or `)`; it
   * is not a SQL tokenizer, so it also accepts texts such as a timestamp's
   * `2024-01-05 10:00:00` that SQL does not read as one unquoted value.
   */
  predicate IsPlain(text: string)
  {
    && |text| > 0
    && text[0] != '\''
    && text != "NULL"
    && NoDelimiter(text)
  }

  /** No `,` and no `)` anywhere in the text. */
  predicate NoDelimiter(text: string)
  {
    text == [] || (text[0] != ',' && text[0] != ')' && NoDelimiter(text[1..]))
  }

  /** `NoDelimiter` holds exactly when no position holds a `,` or a `)`. */
  lemma {:induction false} NoDelimiterChars(text: string)
    ensures NoDelimiter(text) <==> forall i :: 0 <= i < |text| ==> text[i] != ',' && text[i] != ')'
  {
    if text != [] {
      NoDelimiterChars(text[1..]);
      assert forall i :: 0 < i < |text| ==> text[i] == text[1..][i - 1];
    }
  }

  predicate Readable(c: Cell)
  {
    c.Other? ==> IsPlain(c.rendered)
  }

  /** Reads one literal: a quoted string, `NULL`, or plain text up to `,` or `)`. */
  function ReadLiteral(t: string): (r: Option<(Cell, string)>)
    ensures r.Some? ==> |r.value.1| < |t|
  {
    if |t| > 0 && t[0] == '\'' then
      match LexBody(t[1..])
      case None => None
      case Some(p) => Some((Str(p.0), p.1))
    else
      var n := PlainLen(t);
      if n == 0 then None
      else if t[..n] == "NULL" then Some((Null, t[n..]))
      else Some((Other(t[..n]), t[n..]))
  }

  /** Plain text is read up to the following separator and no further. */
  lemma {:induction false} PlainLenPrefix(text: string, rest: string)
    requires NoDelimiter(text)
    requires rest == [] || rest[0] == ',' || rest[0] == ')'
    ensures PlainLen(text + rest) == |text|
  {
    if text == [] {
      assert text + rest == rest;
    } else {
      assert (text + rest)[1..] == text[1..] + rest;
      PlainLenPrefix(text[1..], rest);
    }
  }

  /**
   * Reading a rendered literal back gives the cell it came from, followed by
   * the text that comes after it in a VALUES tuple (`,` or `)`).
   */
  lemma {:induction false} ReadRender(c: Cell, rest: string)
    requires Readable(c)
    requires rest == [] || rest[0] == ',' || rest[0] == ')'
    ensures ReadLiteral(Render(c) + rest) == Some((c, rest))
  {
    match c
    case Str(s) => ReadRenderStr(s, rest);
    case Null => ReadRenderNull(rest);
    case Other(text) => ReadRenderOther(text, rest);
  }

  lemma {:induction false} ReadRenderStr(s: string, rest: string)
    requires rest == [] || rest[0] == ',' || rest[0] == ')'
    ensures ReadLiteral(Render(Str(s)) + rest) == Some((Str(s), rest))
  {
    var t := Render(Str(s)) + rest;
    assert t == "'" + (Escape(s) + "'" + rest);
    assert t[1..] == Escape(s) + "'" + rest;
    LexEscaped(s, rest);
  }

  lemma {:induction false} ReadRenderNull(rest: string)
    requires rest == [] || rest[0] == ',' || rest[0] == ')'
    ensures ReadLiteral(Render(Null) + rest) == Some((Null, rest))
  {
    var t := Render(Null) + rest;
    PlainLenPrefix("NULL", rest);
    assert t[..4] == "NULL";
    assert t[4..] == rest;
  }

  lemma {:induction false} ReadRenderOther(text: string, rest: string)
    requires IsPlain(text)
    requires rest == [] || rest[0] == ',' || rest[0] == ')'
    ensures ReadLiteral(Render(Other(text)) + rest) == Some((Other(text), rest))
  {
    var t := Render(Other(text)) + rest;
    PlainLenPrefix(text, rest);
    assert t[..|text|] == text;
    assert t[|text|..] == rest;
  }

  /**
   * Plainness is needed: a `str()` text holding a comma is written unquoted,
   * so the reader ends the literal at that comma.
   */
  lemma {:induction false} CommaBreaksOther()
    ensures ReadLiteral(Render(Other("1,2")) + ")") == Some((Other("1"), ",2)"))
  {
    var t := Render(Other("1,2")) + ")";
    assert t == "1,2)";
    assert t[1..] == ",2)";
    assert PlainLen(t) == 1;
    assert t[..1] == "1";
  }
}
