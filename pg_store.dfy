/** The PostgreSQL store's string escaping and the INSERT statement built
    from it (src/pg_vector_store.h:44-51, 105-110). Inside a character
    string literal of ISO/IEC 9075-2 (section 5.3) a quote is written as
    two quotes; `escape_string` applies that rule. */
module PgStore {
  import opened Common

  const QUOTE: char := '\''

  /** Each quote doubled, every other character copied, in order. */
  function Escape(s: string): string
    decreases |s|
  {
    if s == [] then [] else (if s[0] == QUOTE then [QUOTE, QUOTE] else [s[0]]) + Escape(s[1..])
  }

  /** The number of quotes in `s`. */
  function Quotes(s: string): nat
    decreases |s|
  {
    if s == [] then 0 else (if s[0] == QUOTE then 1 else 0) + Quotes(s[1..])
  }

  /** Each doubled quote collapsed back to one. */
  function Unescape(r: string): string
    decreases |r|
  {
    if r == [] then []
    else if r[0] == QUOTE && |r| >= 2 && r[1] == QUOTE then [QUOTE] + Unescape(r[2..])
    else [r[0]] + Unescape(r[1..])
  }

  /** Every quote of `r` is one of an adjacent pair: no lone quote. */
  predicate Paired(r: string)
    decreases |r|
  {
    if r == [] then true
    else if r[0] == QUOTE then |r| >= 2 && r[1] == QUOTE && Paired(r[2..])
    else Paired(r[1..])
  }

  lemma {:induction false} EscapeAppend(a: string, b: string)
    ensures Escape(a + b) == Escape(a) + Escape(b)
    decreases |a|
  {
    if a != [] {
      assert (a + b)[1..] == a[1..] + b;
      EscapeAppend(a[1..], b);
    } else {
      assert a + b == b;
    }
  }

  /** `escape_string`: appends to `result` character by character. */
  method EscapeString(str: string) returns (result: string)
    ensures result == Escape(str)
  {
    result := [];
    var i := 0;
    while i < |str|
      invariant 0 <= i <= |str|
      invariant result == Escape(str[..i])
    {
      var c := str[i];
      EscapeAppend(str[..i], [c]);
      assert str[..i + 1] == str[..i] + [c];
      if c == QUOTE {
        result := result + [QUOTE, QUOTE];
      } else {
        result := result + [c];
      }
      i := i + 1;
    }
    assert str[..|str|] == str;
  }

  /** The output is one character longer per quote. */
  lemma {:induction false} EscapeLength(s: string)
    ensures |Escape(s)| == |s| + Quotes(s)
    decreases |s|
  {
    if s != [] {
      EscapeLength(s[1..]);
    }
  }

  /** Collapsing the doubled quotes gives the input back. */
  lemma {:induction false} UnescapeEscape(s: string)
    ensures Unescape(Escape(s)) == s
    decreases |s|
  {
    if s != [] {
      UnescapeEscape(s[1..]);
      var head := if s[0] == QUOTE then [QUOTE, QUOTE] else [s[0]];
      assert Escape(s) == head + Escape(s[1..]);
      if s[0] == QUOTE {
        assert (head + Escape(s[1..]))[2..] == Escape(s[1..]);
      } else {
        assert (head + Escape(s[1..]))[1..] == Escape(s[1..]);
      }
      assert s == [s[0]] + s[1..];
    }
  }

  /** No quote of the output stands alone. */
  lemma {:induction false} EscapePaired(s: string)
    ensures Paired(Escape(s))
    decreases |s|
  {
    if s != [] {
      EscapePaired(s[1..]);
      var head := if s[0] == QUOTE then [QUOTE, QUOTE] else [s[0]];
      if s[0] == QUOTE {
        assert (head + Escape(s[1..]))[2..] == Escape(s[1..]);
      } else {
        assert (head + Escape(s[1..]))[1..] == Escape(s[1..]);
      }
    }
  }

  /** Conversely, every string without a lone quote is the escaping of
      exactly one string: its collapsed form. */
  lemma {:induction false} EscapeUnescape(r: string)
    requires Paired(r)
    ensures Escape(Unescape(r)) == r
    decreases |r|
  {
    if r != [] {
      if r[0] == QUOTE {
        EscapeUnescape(r[2..]);
        assert ([QUOTE] + Unescape(r[2..]))[1..] == Unescape(r[2..]);
        assert r == [QUOTE, QUOTE] + r[2..];
      } else {
        EscapeUnescape(r[1..]);
        assert ([r[0]] + Unescape(r[1..]))[1..] == Unescape(r[1..]);
        assert r == [r[0]] + r[1..];
      }
    }
  }

  // ---------------------------------------------------------------------
  // Reading a literal back

  /** The body of a character string literal whose opening quote has just
      been read: a doubled quote stands for one quote, and a lone quote
      closes the literal. Gives the value and the text after the closing
      quote, or None when the literal is never closed. */
  function ReadLiteral(r: string): Option<(string, string)>
    decreases |r|
  {
    if r == [] then None
    else if r[0] == QUOTE then
      if |r| >= 2 && r[1] == QUOTE then
        match ReadLiteral(r[2..])
        case None => None
        case Some(vr) => Some(([QUOTE] + vr.0, vr.1))
      else Some(([], r[1..]))
    else
      match ReadLiteral(r[1..])
      case None => None
      case Some(vr) => Some(([r[0]] + vr.0, vr.1))
  }

  /** An escaped value followed by a closing quote reads back as exactly
      that value, whatever comes next, as long as it is not a quote. */
  lemma {:induction false} ReadEscaped(s: string, rest: string)
    requires rest == [] || rest[0] != QUOTE
    ensures ReadLiteral(Escape(s) + [QUOTE] + rest) == Some((s, rest))
    decreases |s|
  {
    var r := Escape(s) + [QUOTE] + rest;
    if s == [] {
      assert r == [QUOTE] + rest;
      assert r[1..] == rest;
    } else {
      ReadEscaped(s[1..], rest);
      if s[0] == QUOTE {
        assert r == [QUOTE, QUOTE] + (Escape(s[1..]) + [QUOTE] + rest);
        assert r[2..] == Escape(s[1..]) + [QUOTE] + rest;
      } else {
        assert r == [s[0]] + (Escape(s[1..]) + [QUOTE] + rest);
        assert r[1..] == Escape(s[1..]) + [QUOTE] + rest;
      }
      assert s == [s[0]] + s[1..];
    }
  }

  // ---------------------------------------------------------------------
  // The INSERT statement

  const INSERT_HEAD: string := "INSERT INTO documents (filename, chunk_text, embedding) VALUES ('"
  const SEPARATOR: string := "', '"
  const INSERT_TAIL: string := "'::vector)"

  /** The statement `add_document` sends, given the text form of the
      embedding. */
  function InsertStatement(filename: string, text: string, vector: string): string {
    INSERT_HEAD + Escape(filename) + SEPARATOR + Escape(text) + SEPARATOR + vector + INSERT_TAIL
  }

  /** `add_document`'s statement construction. */
  method AddDocument(filename: string, text: string, vector: string) returns (query: string)
    ensures query == InsertStatement(filename, text, vector)
  {
    var f := EscapeString(filename);
    var t := EscapeString(text);
    query := INSERT_HEAD + f + SEPARATOR + t + SEPARATOR + vector + INSERT_TAIL;
  }

  /** Reading the statement as SQL gives back the filename and the text
      exactly: each sits between a pair of quotes, and no quote inside
      either value can end its literal early. */
  lemma StatementValues(filename: string, text: string, vector: string)
    ensures var q := InsertStatement(filename, text, vector);
      && q[..|INSERT_HEAD|] == INSERT_HEAD
      && ReadLiteral(q[|INSERT_HEAD|..]) == Some((filename, ", '" + Escape(text) + SEPARATOR + vector + INSERT_TAIL))
      && ReadLiteral(Escape(text) + SEPARATOR + vector + INSERT_TAIL) == Some((text, ", '" + vector + INSERT_TAIL))
  {
    var afterText := ", '" + vector + INSERT_TAIL;
    var afterName := ", '" + Escape(text) + SEPARATOR + vector + INSERT_TAIL;
    assert SEPARATOR == [QUOTE] + ", '";
    Regroup(INSERT_HEAD, Escape(filename), SEPARATOR, ", '", Escape(text), vector, INSERT_TAIL, QUOTE);
    ReadEscaped(text, afterText);
    ReadEscaped(filename, afterName);
  }

  lemma Regroup<T>(h: seq<T>, a: seq<T>, s: seq<T>, m: seq<T>, b: seq<T>, v: seq<T>, t: seq<T>, q: T)
    requires s == [q] + m
    ensures h + a + s + b + s + v + t == h + (a + [q] + (m + b + s + v + t))
    ensures (h + a + s + b + s + v + t)[..|h|] == h
    ensures (h + a + s + b + s + v + t)[|h|..] == a + [q] + (m + b + s + v + t)
    ensures b + s + v + t == b + [q] + (m + v + t)
  {
  }
}
