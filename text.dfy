/** The JavaScript string operations the core relies on: `join`, `split` on
    one character, `trim`, `toLowerCase`, and the two ways the code escapes
    apostrophes before it puts user text inside a quoted Drive query literal. */
module Text {
  import opened Common

  // ---------------------------------------------------------------------
  // join and split

  /** `parts.join(sep)`; an empty array joins to the empty string. */
  function Join(parts: seq<string>, sep: string): string {
    if parts == [] then ""
    else if |parts| == 1 then parts[0]
    else parts[0] + sep + Join(parts[1..], sep)
  }

  /** A joined list starts with its first part, followed by the separator
      whenever more parts follow. */
  lemma JoinStartsWith(parts: seq<string>, sep: string)
    requires parts != []
    ensures |parts| == 1 ==> Join(parts, sep) == parts[0]
    ensures |parts| > 1 ==> Join(parts, sep) == parts[0] + sep + Join(parts[1..], sep)
    ensures parts[0] <= Join(parts, sep)
  {
  }

  /** With two parts or more, the join starts with the first two parts and
      the separator between them. */
  lemma JoinFirstTwo(parts: seq<string>, sep: string)
    requires |parts| >= 2
    ensures parts[0] + sep + parts[1] <= Join(parts, sep)
  {
    JoinStartsWith(parts, sep);
    JoinStartsWith(parts[1..], sep);
    var tail := Join(parts[1..], sep);
    assert tail == parts[1] + tail[|parts[1]|..];
    assert Join(parts, sep) == parts[0] + sep + parts[1] + tail[|parts[1]|..];
  }

  /** Three parts are joined with the separator between each pair. */
  lemma JoinThree(a: string, b: string, c: string, sep: string)
    ensures Join([a, b, c], sep) == a + sep + b + sep + c
  {
    assert [b, c][1..] == [c];
    assert Join([b, c], sep) == b + sep + c;
    assert [a, b, c][1..] == [b, c];
    assert Join([a, b, c], sep) == a + sep + (b + sep + c);
  }

  /** With the empty separator, joining distributes over concatenation. */
  lemma {:induction false} JoinConcat(a: seq<string>, b: seq<string>)
    ensures Join(a + b, "") == Join(a, "") + Join(b, "")
  {
    if a != [] {
      JoinConcat(a[1..], b);
      assert (a + b)[1..] == a[1..] + b;
      assert Join(a, "") == a[0] + Join(a[1..], "");
      if |a + b| > 1 {
        assert Join(a + b, "") == (a + b)[0] + "" + Join((a + b)[1..], "");
      }
    } else {
      assert a + b == b;
    }
  }

  /** `s.split(c)`: the pieces between occurrences of `c`; never empty, since
      `"".split(c)` is `[""]`. */
  function Split(s: string, c: char): (r: seq<string>)
    ensures |r| >= 1
    ensures forall i :: 0 <= i < |r| ==> c !in r[i]
  {
    if s == [] then [""]
    else
      var rest := Split(s[1..], c);
      if s[0] == c then [""] + rest
      else [[s[0]] + rest[0]] + rest[1..]
  }

  /** Joining the pieces back with the separator gives the original string. */
  lemma {:induction false} JoinSplit(s: string, c: char)
    ensures Join(Split(s, c), [c]) == s
  {
    if s != [] {
      var rest := Split(s[1..], c);
      JoinSplit(s[1..], c);
      if s[0] == c {
        assert Split(s, c) == [""] + rest;
        assert ([""] + rest)[1..] == rest;
      } else {
        var r := Split(s, c);
        assert r == [[s[0]] + rest[0]] + rest[1..];
        if |rest| == 1 {
          assert r == [[s[0]] + rest[0]];
        } else {
          assert r[1..] == rest[1..];
          assert Join(rest, [c]) == rest[0] + [c] + Join(rest[1..], [c]);
        }
      }
    }
  }

  /** A string without the separator splits into itself alone. */
  lemma {:induction false} SplitWithoutSeparator(s: string, c: char)
    requires c !in s
    ensures Split(s, c) == [s]
  {
    if s != [] {
      SplitWithoutSeparator(s[1..], c);
      assert [s[0]] + s[1..] == s;
    }
  }

  // ---------------------------------------------------------------------
  // trim

  /** The white-space characters `String.prototype.trim` removes that this
      model knows: ASCII white space, no-break space, the byte-order mark and
      the two Unicode line/paragraph separators. */
  predicate IsSpace(ch: char) {
    ch == ' ' || ch == '\t' || ch == '\n' || ch == '\r' || ch == '\U{000B}' || ch == '\U{000C}'
    || ch == '\U{00A0}' || ch == '\U{FEFF}' || ch == '\U{2028}' || ch == '\U{2029}'
  }

  /** Number of leading white-space characters. */
  function LeadingSpace(s: string): (n: nat)
    ensures n <= |s|
    ensures forall k :: 0 <= k < n ==> IsSpace(s[k])
    ensures n < |s| ==> !IsSpace(s[n])
  {
    if s == [] || !IsSpace(s[0]) then 0 else 1 + LeadingSpace(s[1..])
  }

  /** Length of `s` once trailing white space is removed. */
  function WithoutTrailingSpace(s: string): (n: nat)
    ensures n <= |s|
    ensures forall k :: n <= k < |s| ==> IsSpace(s[k])
    ensures n > 0 ==> !IsSpace(s[n - 1])
  {
    if s == [] || !IsSpace(s[|s| - 1]) then |s| else WithoutTrailingSpace(s[..|s| - 1])
  }

  /** `s.trim()`: the slice `s[i..j]` such that everything outside it is
      white space and it neither starts nor ends with white space. */
  function Trim(s: string): (r: string)
    ensures exists i, j :: 0 <= i <= j <= |s| && r == s[i..j] &&
              (forall k :: 0 <= k < i ==> IsSpace(s[k])) && (forall k :: j <= k < |s| ==> IsSpace(s[k]))
    ensures r != [] ==> !IsSpace(r[0]) && !IsSpace(r[|r| - 1])
    ensures (forall k :: 0 <= k < |s| ==> IsSpace(s[k])) <==> r == []
  {
    var i := LeadingSpace(s);
    var j := WithoutTrailingSpace(s);
    if i <= j then s[i..j]
    else
      assert forall k :: 0 <= k < |s| ==> IsSpace(s[k]);
      assert s[0..0] == [];
      []
  }

  /** Trimming twice changes nothing more. */
  lemma TrimIdempotent(s: string)
    ensures Trim(Trim(s)) == Trim(s)
  {
    var t := Trim(s);
    if t != [] {
      assert LeadingSpace(t) == 0;
      assert WithoutTrailingSpace(t) == |t|;
    }
  }

  // ---------------------------------------------------------------------
  // toLowerCase

  predicate IsUpper(ch: char) {
    'A' <= ch <= 'Z'
  }

  function LowerChar(ch: char): (r: char)
    ensures !IsUpper(r)
    ensures IsUpper(ch) ==> r as int == ch as int + 32
    ensures !IsUpper(ch) ==> r == ch
  {
    if IsUpper(ch) then (ch as int + 32) as char else ch
  }

  /** `s.toLowerCase()` for the ASCII letters. */
  function Lower(s: string): (r: string)
    ensures |r| == |s|
    ensures forall i :: 0 <= i < |s| ==> r[i] == LowerChar(s[i])
    ensures forall i :: 0 <= i < |r| ==> !IsUpper(r[i])
  {
    seq(|s|, i requires 0 <= i < |s| => LowerChar(s[i]))
  }

  /** Lowering is idempotent, so a lowered allowlist entry matches itself. */
  lemma LowerIdempotent(s: string)
    ensures Lower(Lower(s)) == Lower(s)
  {
  }

  // ---------------------------------------------------------------------
  // apostrophe escaping

  /** `s.replace("'", "\\'")` with a string pattern: only the FIRST
      apostrophe gets a backslash in front of it. */
  function EscapeFirst(s: string): (r: string)
    ensures '\'' !in s ==> r == s
    ensures |r| == if '\'' in s then |s| + 1 else |s|
  {
    if s == [] then []
    else if s[0] == '\'' then "\\'" + s[1..]
    else [s[0]] + EscapeFirst(s[1..])
  }

  /** Where the first apostrophe sits at index `i`, `EscapeFirst` inserts a
      backslash there and leaves the rest of the text, later apostrophes
      included, untouched. */
  lemma {:induction false} EscapeFirstAt(s: string, i: nat)
    requires i < |s| && s[i] == '\'' && '\'' !in s[..i]
    ensures EscapeFirst(s) == s[..i] + "\\'" + s[i + 1..]
  {
    if i > 0 {
      assert s[1..][..i - 1] == s[1..i];
      assert '\'' !in s[1..i] by { assert forall k :: 0 <= k < i - 1 ==> s[1..i][k] == s[..i][k + 1]; }
      EscapeFirstAt(s[1..], i - 1);
      assert s[1..][i..] == s[i + 1..];
      assert s[..i] == [s[0]] + s[1..i];
    }
  }

  /** `s.replace(/'/g, "\\'")`: every apostrophe gets a backslash. */
  function EscapeAll(s: string): string {
    if s == [] then []
    else if s[0] == '\'' then "\\'" + EscapeAll(s[1..])
    else [s[0]] + EscapeAll(s[1..])
  }

  /** The escaping adds one character per apostrophe. */
  lemma {:induction false} EscapeAllLength(s: string)
    ensures |EscapeAll(s)| == |s| + Count(s, '\'')
  {
    if s != [] {
      assert s == [s[0]] + s[1..];
      EscapeAllLength(s[1..]);
    }
  }

  /** Escaping one character: an apostrophe becomes backslash-apostrophe,
      any other character stays as it is. */
  lemma EscapeAllChar(c: char)
    ensures EscapeAll([c]) == if c == '\'' then "\\'" else [c]
  {
    assert [c][1..] == [];
  }

  /** Escaping works character by character: the escaping of a concatenation
      is the concatenation of the escapings. */
  lemma {:induction false} EscapeAllConcat(a: string, b: string)
    ensures EscapeAll(a + b) == EscapeAll(a) + EscapeAll(b)
  {
    if a == [] {
      assert a + b == b;
    } else {
      var c, t := a[0], a[1..];
      assert a == [c] + t;
      assert a + b == [c] + (t + b);
      EscapeAllConcat(t, b);
      EscapeAllCons(a, c, t);
      EscapeAllCons(a + b, c, t + b);
    }
  }

  /** Escaping a non-empty string escapes its first character, then the rest. */
  lemma EscapeAllCons(s: string, c: char, t: string)
    requires s == [c] + t
    ensures EscapeAll(s) == EscapeAll([c]) + EscapeAll(t)
  {
    assert s[0] == c && s[1..] == t;
    EscapeAllChar(c);
  }

  /** Every apostrophe is escaped: an apostrophe at index `i` of `s` comes
      out as backslash-apostrophe, after the escaping of `s[..i]` and before
      that of `s[i + 1..]`. */
  lemma EscapeAllAt(s: string, i: nat)
    requires i < |s| && s[i] == '\''
    ensures EscapeAll(s) == EscapeAll(s[..i]) + "\\'" + EscapeAll(s[i + 1..])
  {
    var pre, post := s[..i], s[i + 1..];
    var tail := [s[i]] + post;
    assert s == pre + tail;
    EscapeAllConcat(pre, tail);
    EscapeAllConcat([s[i]], post);
    EscapeAllChar(s[i]);
    assert EscapeAll(tail) == "\\'" + EscapeAll(post);
  }

  /** With at most one apostrophe the two escapings agree. */
  lemma {:induction false} EscapeFirstAgreesOnOneQuote(s: string)
    requires Count(s, '\'') <= 1
    ensures EscapeFirst(s) == EscapeAll(s)
  {
    if s != [] {
      assert s == [s[0]] + s[1..];
      if s[0] == '\'' {
        NoQuoteEscapeAll(s[1..]);
      } else {
        EscapeFirstAgreesOnOneQuote(s[1..]);
      }
    }
  }

  lemma {:induction false} NoQuoteEscapeAll(s: string)
    requires Count(s, '\'') == 0
    ensures EscapeAll(s) == s
  {
    if s != [] {
      assert s == [s[0]] + s[1..];
      NoQuoteEscapeAll(s[1..]);
    }
  }
}
