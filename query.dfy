/** The pieces of Drive's query language that both search front ends build
    on: the fixed clause every query starts with, the word that joins
    clauses, and how a quoted string literal is read back.

    Drive's own query parser is not part of this model. `ReadLiteral` is the
    reading rule the model assumes for it: the usual one for quoted strings,
    under which a backslash takes the next character literally (so `\'`
    stands for an apostrophe and `\\` for a backslash) and the first other
    apostrophe closes the literal. */
module Query {
  import opened Common
  import opened Text

  /** The clause both search front ends start their Drive query with, and
      the word that joins the clauses of a query. */
  const TrashedClause: string := "trashed = false"
  const ClauseSeparator: string := " and "

  /** Reads a quoted literal from just after its opening apostrophe. The
      result is the literal's value and the text after its closing
      apostrophe, or `None` when the literal never closes. */
  function ReadLiteral(t: string): Option<(string, string)>
    decreases |t|
  {
    if t == [] then None
    else if t[0] == '\'' then Some(("", t[1..]))
    else if t[0] == '\\' then
      if |t| < 2 then None else Prepend(t[1], ReadLiteral(t[2..]))
    else Prepend(t[0], ReadLiteral(t[1..]))
  }

  /** One more character at the front of a literal's value. */
  function Prepend(c: char, read: Option<(string, string)>): Option<(string, string)> {
    match read
    case None => None
    case Some(r) => Some(([c] + r.0, r.1))
  }

  /** The escaping a literal read by `ReadLiteral` needs: a backslash in
      front of every backslash and every apostrophe. */
  function EscapeLiteral(s: string): string {
    if s == [] then []
    else if s[0] == '\'' || s[0] == '\\' then ['\\', s[0]] + EscapeLiteral(s[1..])
    else [s[0]] + EscapeLiteral(s[1..])
  }

  /** The escaping adds one character per apostrophe and per backslash. */
  lemma {:induction false} EscapeLiteralLength(s: string)
    ensures |EscapeLiteral(s)| == |s| + Count(s, '\'') + Count(s, '\\')
  {
    if s != [] {
      assert s == [s[0]] + s[1..];
      EscapeLiteralLength(s[1..]);
    }
  }

  /** The escaped text followed by an apostrophe reads back as exactly the
      input, and the literal closes at that apostrophe whatever follows it:
      no user text can end a literal early or keep it open. */
  lemma {:induction false} ReadEscapedLiteral(s: string, rest: string)
    ensures ReadLiteral(EscapeLiteral(s) + "'" + rest) == Some((s, rest))
  {
    var closing := "'" + rest;
    assert EscapeLiteral(s) + "'" + rest == EscapeLiteral(s) + closing;
    if s == [] {
      assert EscapeLiteral(s) + closing == closing;
    } else {
      ReadEscapedLiteral(s[1..], rest);
      assert EscapeLiteral(s[1..]) + "'" + rest == EscapeLiteral(s[1..]) + closing;
      ReadEscapedHead(s, closing);
      assert [s[0]] + s[1..] == s;
    }
  }

  /** Reading the escaped form of the first character gives that character. */
  lemma ReadEscapedHead(s: string, tail: string)
    requires s != []
    ensures ReadLiteral(EscapeLiteral(s) + tail) == Prepend(s[0], ReadLiteral(EscapeLiteral(s[1..]) + tail))
  {
    var e := EscapeLiteral(s[1..]);
    if s[0] == '\'' || s[0] == '\\' {
      assert EscapeLiteral(s) + tail == ['\\', s[0]] + (e + tail);
      ReadEscapedPair(s[0], e + tail);
    } else {
      assert EscapeLiteral(s) + tail == [s[0]] + (e + tail);
      ReadPlain(s[0], e + tail);
    }
  }

  lemma ReadEscapedPair(c: char, tail: string)
    ensures ReadLiteral(['\\', c] + tail) == Prepend(c, ReadLiteral(tail))
  {
    var t := ['\\', c] + tail;
    assert t[0] == '\\' && t[1] == c && t[2..] == tail;
  }

  lemma ReadPlain(c: char, tail: string)
    requires c != '\'' && c != '\\'
    ensures ReadLiteral([c] + tail) == Prepend(c, ReadLiteral(tail))
  {
    var t := [c] + tail;
    assert t[0] == c && t[1..] == tail;
  }

  /** On text without a backslash, escaping only the apostrophes is the
      whole escaping the literal needs. */
  lemma {:induction false} EscapeAllWithoutBackslash(s: string)
    requires '\\' !in s
    ensures EscapeAll(s) == EscapeLiteral(s)
  {
    if s != [] {
      assert s == [s[0]] + s[1..];
      EscapeAllWithoutBackslash(s[1..]);
    }
  }

  /** Escaping only the first apostrophe: for `a'b'` the literal closes at
      the second apostrophe, holding `a'b`, and the quote meant to close it
      is left over. */
  lemma EscapeFirstEndsLiteralEarly()
    ensures EscapeFirst("a'b'") == "a\\'b'"
    ensures ReadLiteral(EscapeFirst("a'b'") + "'") == Some(("a'b", "'"))
  {
    var t4: string := "''";
    var t3 := ['b'] + t4;
    var t1 := ['\\', '\''] + t3;
    var t := ['a'] + t1;
    assert EscapeFirst("a'b'") + "'" == t;
    assert t4[0] == '\'' && t4[1..] == "'";
    assert ReadLiteral(t4) == Some(("", "'"));
    assert t3[0] == 'b' && t3[1..] == t4;
    assert t3 != [] && t3[0] != '\'' && t3[0] != '\\';
    assert ReadLiteral(t3) == Prepend('b', ReadLiteral(t4));
    assert Prepend('b', Some(("", "'"))) == Some((['b'] + "", "'"));
    assert ['b'] + "" == "b";
    assert ReadLiteral(t3) == Some(("b", "'"));
    assert t1[0] == '\\' && t1[1] == '\'' && t1[2..] == t3;
    assert ReadLiteral(t1) == Prepend('\'', ReadLiteral(t3));
    assert ['\''] + "b" == "'b";
    assert ReadLiteral(t1) == Some(("'b", "'"));
    assert t[0] == 'a' && t[1..] == t1;
    assert ReadLiteral(t) == Prepend('a', ReadLiteral(t1));
    assert ['a'] + "'b" == "a'b";
  }

  /** Neither escaping touches a backslash: for `a\` the backslash takes the
      closing apostrophe as text, so the literal never closes. */
  lemma BackslashKeepsLiteralOpen()
    ensures EscapeAll("a\\") == "a\\" && EscapeFirst("a\\") == "a\\"
    ensures ReadLiteral(EscapeAll("a\\") + "'") == None
    ensures ReadLiteral(EscapeFirst("a\\") + "'") == None
  {
    var t1: string := ['\\', '\''];
    var t := ['a'] + t1;
    assert EscapeAll("a\\") + "'" == t;
    assert t1[0] == '\\' && t1[2..] == [];
    assert ReadLiteral(t1) == None;
    assert t[0] == 'a' && t[1..] == t1;
  }
}
