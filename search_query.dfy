/**
 Construction of the full-text query of the `/search` endpoint: the parameter
 `q` must be present and non-empty; it is split on runs of JavaScript
 whitespace (`split(/\s+/)`), every piece is turned into a JSON string literal
 (`JSON.stringify`), which the full-text engine reads as a quoted phrase, and
 the phrases are joined by single spaces.
 */
module SearchQuery {
  import opened Wrappers
  import Chunking

  const EmptyQueryMessage: string := "query parameter `q` should contains 1 ore more characters."

  /** The characters matched by `\s` in a JavaScript regular expression: WhiteSpace and LineTerminator. */
  predicate IsSpace(c: char)
  {
    || c == '\t' || c == '\n' || c == '\r' || c == ' '
    || c as int == 0x0B || c as int == 0x0C
    || c as int == 0xA0 || c as int == 0x1680
    || (0x2000 <= c as int <= 0x200A)
    || c as int == 0x2028 || c as int == 0x2029
    || c as int == 0x202F || c as int == 0x205F
    || c as int == 0x3000 || c as int == 0xFEFF
  }

  predicate NoSpace(s: string)
  {
    forall i :: 0 <= i < |s| ==> !IsSpace(s[i])
  }

  /** The input without its leading run of whitespace. */
  function SkipSpaces(s: string): (r: string)
    ensures |r| <= |s|
    ensures r == [] || !IsSpace(r[0])
    ensures s != [] && IsSpace(s[0]) ==> |r| < |s|
  {
    if s != [] && IsSpace(s[0]) then SkipSpaces(s[1..]) else s
  }

  /**
   `s.split(/\s+/)`: the pieces between maximal runs of whitespace. A leading
   (trailing) run yields an empty first (last) piece; there is always at least
   one piece, and no piece contains whitespace.
   */
  function Split(s: string): (pieces: seq<string>)
    ensures |pieces| >= 1
    decreases |s|
  {
    if s == [] then [[]]
    else if IsSpace(s[0]) then [[]] + Split(SkipSpaces(s))
    else
      var t := Split(s[1..]);
      [[s[0]] + t[0]] + t[1..]
  }

  function RemoveSpaces(s: string): string
  {
    if s == [] then []
    else if IsSpace(s[0]) then RemoveSpaces(s[1..])
    else [s[0]] + RemoveSpaces(s[1..])
  }

  /** JavaScript's `Array.prototype.join`. */
  function Join(ps: seq<string>, sep: string): string
  {
    if |ps| == 0 then []
    else if |ps| == 1 then ps[0]
    else ps[0] + sep + Join(ps[1..], sep)
  }

  function HexDigit(d: int): char
    requires 0 <= d < 16
  {
    "0123456789abcdef"[d]
  }

  function HexValue(c: char): Option<int>
  {
    if '0' <= c <= '9' then Some(c as int - '0' as int)
    else if 'a' <= c <= 'f' then Some(c as int - 'a' as int + 10)
    else if 'A' <= c <= 'F' then Some(c as int - 'A' as int + 10)
    else None
  }

  /**
   How `JSON.stringify` writes one character inside a string literal: the quote
   and the backslash are escaped, the control characters with a short form
   use it, the other control characters become `\u00xx` (lower-case hex).
   */
  function EscapeChar(c: char): string
  {
    if c == '"' then "\\\""
    else if c == '\\' then "\\\\"
    else if c as int == 0x08 then "\\b"
    else if c == '\t' then "\\t"
    else if c == '\n' then "\\n"
    else if c as int == 0x0C then "\\f"
    else if c == '\r' then "\\r"
    else if c as int < 0x20 then "\\u00" + [HexDigit(c as int / 16), HexDigit(c as int % 16)]
    else [c]
  }

  function Escape(s: string): string
  {
    if s == [] then [] else EscapeChar(s[0]) + Escape(s[1..])
  }

  /** `JSON.stringify` of a string. */
  function Quote(s: string): string
  {
    "\"" + Escape(s) + "\""
  }

  /** Reads the first character of the body of a JSON string literal and says how many characters it took. */
  function DecodeChar(s: string): (r: Option<(char, nat)>)
    requires s != []
    ensures r.Some? ==> 1 <= r.value.1 <= |s|
  {
    if s[0] == '\\' then
      if |s| < 2 then None
      else if s[1] == '"' then Some(('"', 2))
      else if s[1] == '\\' then Some(('\\', 2))
      else if s[1] == '/' then Some(('/', 2))
      else if s[1] == 'b' then Some((0x08 as char, 2))
      else if s[1] == 't' then Some(('\t', 2))
      else if s[1] == 'n' then Some(('\n', 2))
      else if s[1] == 'f' then Some((0x0C as char, 2))
      else if s[1] == 'r' then Some(('\r', 2))
      else if s[1] == 'u' && |s| >= 6 then
        var h := [HexValue(s[2]), HexValue(s[3]), HexValue(s[4]), HexValue(s[5])];
        if h[0].None? || h[1].None? || h[2].None? || h[3].None? then None
        else
          var code := ((h[0].value * 16 + h[1].value) * 16 + h[2].value) * 16 + h[3].value;
          if 0 <= code < 0xD800 || 0xE000 <= code < 0x1_0000 then Some((code as char, 6)) else None
      else None
    else if s[0] == '"' || s[0] as int < 0x20 then None
    else Some((s[0], 1))
  }

  /** The text denoted by the body of a JSON string literal, if the body is well formed. */
  function Unescape(s: string): Option<string>
    decreases |s|
  {
    if s == [] then Some([])
    else
      match DecodeChar(s)
      case None => None
      case Some((c, k)) =>
        match Unescape(s[k..])
        case None => None
        case Some(rest) => Some([c] + rest)
  }

  /** The text denoted by a JSON string literal. */
  function Unquote(t: string): Option<string>
  {
    if |t| >= 2 && t[0] == '"' && t[|t| - 1] == '"' then Unescape(t[1..|t| - 1]) else None
  }

  function QuoteAll(ps: seq<string>): (qs: seq<string>)
    ensures |qs| == |ps|
  {
    seq(|ps|, i requires 0 <= i < |ps| => Quote(ps[i]))
  }

  /**
   The handler of `/search` before the statement runs: an absent or empty `q`
   is rejected with the source's message; any other `q` (whitespace alone
   included, as nothing is trimmed) becomes the MATCH expression. Splitting that
   expression on whitespace gives back one quoted phrase per piece of `q`, and
   each phrase denotes exactly its piece.
   */
  function BuildMatch(q: Option<string>): (r: Result<string>)
    ensures r.Err? <==> q == None || q == Some([])
    ensures r.Err? ==> r.message == EmptyQueryMessage
    ensures r.Ok? ==> |Split(r.value)| == |Split(q.value)|
    ensures r.Ok? ==> forall k :: 0 <= k < |Split(q.value)| ==> Unquote(Split(r.value)[k]) == Some(Split(q.value)[k])
  {
    if q.None? || q.value == [] then Err(EmptyQueryMessage)
    else
      var pieces := Split(q.value);
      var terms := QuoteAll(pieces);
      SplitNoSpace(q.value);
      QuotedTermsSeparate(pieces);
      assert forall k :: 0 <= k < |pieces| ==> Unquote(terms[k]) == Some(pieces[k]) by {
        forall k | 0 <= k < |pieces| ensures Unquote(terms[k]) == Some(pieces[k]) {
          UnquoteQuote(pieces[k]);
        }
      }
      Ok(Join(terms, " "))
  }

  // ----- lemmas -----

  /** No piece of `split(/\s+/)` contains whitespace. */
  lemma {:induction false} SplitNoSpace(s: string)
    ensures forall k :: 0 <= k < |Split(s)| ==> NoSpace(Split(s)[k])
    decreases |s|
  {
    if s == [] {
    } else if IsSpace(s[0]) {
      SplitNoSpace(SkipSpaces(s));
      var t := Split(SkipSpaces(s));
      assert Split(s) == [[]] + t;
      forall k | 0 < k < |Split(s)| ensures NoSpace(Split(s)[k]) {
        assert Split(s)[k] == t[k - 1];
      }
    } else {
      SplitNoSpace(s[1..]);
      var t := Split(s[1..]);
      assert Split(s) == [[s[0]] + t[0]] + t[1..];
      assert NoSpace(t[0]);
      forall k | 0 < k < |Split(s)| ensures NoSpace(Split(s)[k]) {
        assert Split(s)[k] == t[k];
      }
    }
  }

  /** Splitting keeps every non-whitespace character, in order, and only those. */
  lemma {:induction false} SplitKeepsText(s: string)
    ensures Chunking.Flatten(Split(s)) == RemoveSpaces(s)
    decreases |s|
  {
    if s == [] {
    } else if IsSpace(s[0]) {
      var r := SkipSpaces(s);
      SplitKeepsText(r);
      SkippedSpacesRemoved(s);
      FlattenCons([], Split(r));
    } else {
      var t := Split(s[1..]);
      SplitKeepsText(s[1..]);
      FlattenCons(t[0], t[1..]);
      FlattenCons([s[0]] + t[0], t[1..]);
      assert [t[0]] + t[1..] == t;
      assert RemoveSpaces(s) == [s[0]] + RemoveSpaces(s[1..]);
    }
  }

  lemma FlattenCons(p: string, ps: seq<string>)
    ensures Chunking.Flatten([p] + ps) == p + Chunking.Flatten(ps)
  {
    assert ([p] + ps)[1..] == ps;
  }

  lemma {:induction false} SkippedSpacesRemoved(s: string)
    ensures RemoveSpaces(s) == RemoveSpaces(SkipSpaces(s))
    decreases |s|
  {
    if s != [] && IsSpace(s[0]) {
      SkippedSpacesRemoved(s[1..]);
    }
  }

  /** A character that is not whitespace glues onto the first piece of what follows it. */
  lemma SplitCons(c: char, t: string)
    requires !IsSpace(c)
    ensures Split([c] + t) == [[c] + Split(t)[0]] + Split(t)[1..]
  {
    assert ([c] + t)[0] == c && ([c] + t)[1..] == t;
  }

  /** A piece free of whitespace glues onto the first piece of what follows it. */
  lemma {:induction false} SplitWordPrefix(p: string, t: string)
    requires NoSpace(p)
    ensures Split(p + t) == [p + Split(t)[0]] + Split(t)[1..]
    decreases |p|
  {
    var u := Split(t);
    if p == [] {
      assert p + t == t && p + u[0] == u[0];
      assert [u[0]] + u[1..] == u;
    } else {
      var w := p[1..] + t;
      SplitWordPrefix(p[1..], t);
      assert p + t == [p[0]] + w;
      SplitCons(p[0], w);
      var v := Split(w);
      assert v[0] == p[1..] + u[0] && v[1..] == u[1..];
      assert [p[0]] + (p[1..] + u[0]) == p + u[0];
    }
  }

  /** Joining non-empty whitespace-free pieces with single spaces and splitting again gives the pieces back. */
  lemma {:induction false} SplitJoin(ps: seq<string>)
    requires |ps| >= 1
    requires forall k :: 0 <= k < |ps| ==> ps[k] != [] && NoSpace(ps[k])
    ensures Split(Join(ps, " ")) == ps
    decreases |ps|
  {
    if |ps| == 1 {
      SplitWordPrefix(ps[0], []);
      assert ps[0] + [] == ps[0];
    } else {
      var rest := Join(ps[1..], " ");
      SplitJoin(ps[1..]);
      JoinStartsWith(ps[1..]);
      assert Join(ps, " ") == ps[0] + (" " + rest);
      SplitWordPrefix(ps[0], " " + rest);
      assert SkipSpaces(" " + rest) == rest;
      assert Split(" " + rest) == [[]] + ps[1..];
      assert ps[0] + [] == ps[0];
      assert [ps[0]] + ps[1..] == ps;
    }
  }

  lemma {:induction false} JoinStartsWith(ps: seq<string>)
    requires |ps| >= 1 && ps[0] != []
    ensures Join(ps, " ") != [] && Join(ps, " ")[0] == ps[0][0]
  {
  }

  lemma EscapeCharNoSpace(c: char)
    requires !IsSpace(c)
    ensures NoSpace(EscapeChar(c))
  {
    var e := EscapeChar(c);
    if c as int < 0x20 && c != '\t' && c != '\n' && c != '\r' && c as int != 0x08 && c as int != 0x0C {
      assert e == ['\\', 'u', '0', '0', HexDigit(c as int / 16), HexDigit(c as int % 16)];
    }
  }

  /** Escaping introduces no whitespace: only backslashes, letters and hex digits are added. */
  lemma {:induction false} EscapeNoSpace(s: string)
    requires NoSpace(s)
    ensures NoSpace(Escape(s))
    decreases |s|
  {
    if s != [] {
      EscapeNoSpace(s[1..]);
      var e := EscapeChar(s[0]);
      EscapeCharNoSpace(s[0]);
      assert Escape(s) == e + Escape(s[1..]);
    }
  }

  /** A quoted piece is never empty and never holds whitespace, so the phrases of a query stay apart. */
  lemma QuotedTermsSeparate(pieces: seq<string>)
    requires |pieces| >= 1
    requires forall k :: 0 <= k < |pieces| ==> NoSpace(pieces[k])
    ensures Split(Join(QuoteAll(pieces), " ")) == QuoteAll(pieces)
  {
    var terms := QuoteAll(pieces);
    forall k | 0 <= k < |terms| ensures terms[k] != [] && NoSpace(terms[k]) {
      EscapeNoSpace(pieces[k]);
    }
    SplitJoin(terms);
  }

  lemma DecodeEscapeChar(c: char, rest: string)
    ensures EscapeChar(c) != []
    ensures DecodeChar(EscapeChar(c) + rest) == Some((c, |EscapeChar(c)|))
  {
    var e := EscapeChar(c);
    var s := e + rest;
    if c as int < 0x20 && c != '\t' && c != '\n' && c != '\r' && c as int != 0x08 && c as int != 0x0C {
      var hi, lo := c as int / 16, c as int % 16;
      assert s[..6] == e;
      assert s[1] == 'u' && s[2] == '0' && s[3] == '0' && s[4] == HexDigit(hi) && s[5] == HexDigit(lo);
      assert HexValue(HexDigit(hi)) == Some(hi);
      assert HexValue(HexDigit(lo)) == Some(lo);
      assert ((0 * 16 + 0) * 16 + hi) * 16 + lo == c as int;
    } else {
      assert s[..|e|] == e;
    }
  }

  /** `JSON.stringify` loses nothing: the escaped body reads back as the original text. */
  lemma {:induction false} UnescapeEscape(s: string)
    ensures Unescape(Escape(s)) == Some(s)
    decreases |s|
  {
    if s != [] {
      var e := EscapeChar(s[0]);
      DecodeEscapeChar(s[0], Escape(s[1..]));
      UnescapeEscape(s[1..]);
      assert Escape(s) == e + Escape(s[1..]);
      assert (e + Escape(s[1..]))[|e|..] == Escape(s[1..]);
      assert [s[0]] + s[1..] == s;
    }
  }

  lemma UnquoteQuote(s: string)
    ensures Unquote(Quote(s)) == Some(s)
  {
    var t := Quote(s);
    assert t[1..|t| - 1] == Escape(s);
    UnescapeEscape(s);
  }

  /** Distinct pieces give distinct phrases. */
  lemma QuoteInjective(a: string, b: string)
    requires Quote(a) == Quote(b)
    ensures a == b
  {
    UnquoteQuote(a);
    UnquoteQuote(b);
  }

  // ----- how FTS5 reads the expression -----

  /**
   The body of an FTS5 string after its opening `"`: a doubled `""` stands for
   one `"`, a single `"` closes the string, and there are no other escapes.
   Gives the text and what follows the closing quote, or nothing for an
   unterminated string.
   */
  function Fts5StringBody(t: string): (r: Option<(string, string)>)
    ensures r.Some? ==> |r.value.1| < |t| && r.value.1 == t[|t| - |r.value.1|..]
    decreases |t|
  {
    if t == [] then None
    else if t[0] == '"' then
      if |t| >= 2 && t[1] == '"' then
        match Fts5StringBody(t[2..])
        case None => None
        case Some((text, rest)) => Some((['"'] + text, rest))
      else Some(([], t[1..]))
    else
      match Fts5StringBody(t[1..])
      case None => None
      case Some((text, rest)) => Some(([t[0]] + text, rest))
  }

  /**
   An expression made of FTS5 strings separated by single spaces, read as the
   texts of its phrases; nothing when it is not of that form (FTS5 itself
   rejects an unterminated string with a syntax error).
   */
  function Fts5Phrases(e: string): Option<seq<string>>
    decreases |e|
  {
    if e == [] || e[0] != '"' then None
    else
      match Fts5StringBody(e[1..])
      case None => None
      case Some((text, rest)) =>
        if rest == [] then Some([text])
        else if rest[0] == ' ' then
          match Fts5Phrases(rest[1..])
          case None => None
          case Some(more) => Some([text] + more)
        else None
  }

  /** FTS5's own quoting: every `"` doubled, the whole wrapped in `"`. */
  function DoubleQuotes(s: string): string
  {
    if s == [] then []
    else if s[0] == '"' then "\"\"" + DoubleQuotes(s[1..])
    else [s[0]] + DoubleQuotes(s[1..])
  }

  function Fts5Quote(s: string): string
  {
    "\"" + DoubleQuotes(s) + "\""
  }

  function Fts5QuoteAll(ps: seq<string>): (qs: seq<string>)
    ensures |qs| == |ps|
  {
    seq(|ps|, i requires 0 <= i < |ps| => Fts5Quote(ps[i]))
  }

  /**
   The query builder with FTS5 quoting in place of `JSON.stringify`: the same
   rejection of an absent or empty `q`, and an expression that FTS5 reads as
   exactly the whitespace-separated pieces of `q`, one phrase each.
   */
  function BuildFts5Match(q: Option<string>): (r: Result<string>)
    ensures r.Err? <==> q == None || q == Some([])
    ensures r.Err? ==> r.message == EmptyQueryMessage
    ensures r.Ok? ==> Fts5Phrases(r.value) == Some(Split(q.value))
  {
    if q.None? || q.value == [] then Err(EmptyQueryMessage)
    else
      Fts5ReadsQuoted(Split(q.value));
      Ok(Join(Fts5QuoteAll(Split(q.value)), " "))
  }

  /** FTS5 reads an FTS5-quoted string back as its text, up to a following character that is not a quote. */
  lemma {:induction false} Fts5StringBodyQuoted(s: string, rest: string)
    requires rest == [] || rest[0] != '"'
    ensures Fts5StringBody(DoubleQuotes(s) + "\"" + rest) == Some((s, rest))
    decreases |s|
  {
    var t := DoubleQuotes(s) + "\"" + rest;
    if s == [] {
      assert t == ['"'] + rest;
      assert t[1..] == rest;
      assert |t| >= 2 ==> t[1] == rest[0];
    } else {
      var u := DoubleQuotes(s[1..]) + "\"" + rest;
      Fts5StringBodyQuoted(s[1..], rest);
      if s[0] == '"' {
        QuoteDoubled(s, u, rest);
      } else {
        assert DoubleQuotes(s) == [s[0]] + DoubleQuotes(s[1..]);
        assert t == [s[0]] + u;
        assert t[0] == s[0] && t[1..] == u;
        assert [s[0]] + s[1..] == s;
      }
    }
  }

  lemma QuoteDoubled(s: string, u: string, rest: string)
    requires s != [] && s[0] == '"'
    requires u == DoubleQuotes(s[1..]) + "\"" + rest
    requires Fts5StringBody(u) == Some((s[1..], rest))
    ensures Fts5StringBody(DoubleQuotes(s) + "\"" + rest) == Some((s, rest))
  {
    var t := DoubleQuotes(s) + "\"" + rest;
    assert DoubleQuotes(s) == "\"\"" + DoubleQuotes(s[1..]);
    assert t == "\"\"" + u;
    assert t[0] == '"' && t[1] == '"' && t[2..] == u;
    assert ['"'] + s[1..] == s;
  }

  lemma Fts5PhrasesSingle(p: string)
    ensures Fts5Phrases(Fts5Quote(p)) == Some([p])
  {
    var e := Fts5Quote(p);
    assert e[0] == '"';
    assert e[1..] == DoubleQuotes(p) + "\"" + [];
    Fts5StringBodyQuoted(p, []);
  }

  lemma Fts5PhrasesCons(p: string, tail: string)
    ensures Fts5Phrases(Fts5Quote(p) + (" " + tail)) ==
      match Fts5Phrases(tail)
      case None => None
      case Some(more) => Some([p] + more)
  {
    var rest := " " + tail;
    var e := Fts5Quote(p) + rest;
    assert e[0] == '"';
    assert e[1..] == DoubleQuotes(p) + "\"" + rest;
    Fts5StringBodyQuoted(p, rest);
    var body := Fts5StringBody(e[1..]);
    assert body == Some((p, rest));
    assert rest != [] && rest[0] == ' ' && rest[1..] == tail;
  }

  lemma JoinCons(qs: seq<string>)
    requires |qs| >= 2
    ensures Join(qs, " ") == qs[0] + (" " + Join(qs[1..], " "))
  {
  }

  lemma Fts5QuoteAllCons(ps: seq<string>)
    requires |ps| >= 2
    ensures Join(Fts5QuoteAll(ps), " ") == Fts5Quote(ps[0]) + (" " + Join(Fts5QuoteAll(ps[1..]), " "))
  {
    var qs := Fts5QuoteAll(ps);
    assert qs[1..] == Fts5QuoteAll(ps[1..]);
    JoinCons(qs);
  }

  /** FTS5 reads the FTS5-quoted pieces, joined by single spaces, as exactly the pieces. */
  lemma {:induction false} Fts5ReadsQuoted(ps: seq<string>)
    requires |ps| >= 1
    ensures Fts5Phrases(Join(Fts5QuoteAll(ps), " ")) == Some(ps)
    decreases |ps|
  {
    if |ps| == 1 {
      assert Join(Fts5QuoteAll(ps), " ") == Fts5Quote(ps[0]);
      Fts5PhrasesSingle(ps[0]);
      assert [ps[0]] == ps;
    } else {
      var tail := Join(Fts5QuoteAll(ps[1..]), " ");
      Fts5ReadsQuoted(ps[1..]);
      Fts5QuoteAllCons(ps);
      Fts5PhrasesCons(ps[0], tail);
      assert [ps[0]] + ps[1..] == ps;
    }
  }

  /**
   As written, a query holding a double quote is not a well-formed FTS5
   expression: `JSON.stringify` escapes the quote with a backslash, which FTS5
   does not recognise. FTS5 reads the backslash as text and the two quotes
   after it as one escaped quote, so the string opened by the first quote
   never closes. FTS5 quoting reads back as the query.
   */
  lemma JsonQuotingBreaksFts5()
    ensures BuildMatch(Some("\"")) == Ok("\"\\\"\"")
    ensures Fts5StringBody(BuildMatch(Some("\"")).value[1..]) == None
    ensures Fts5Phrases(BuildMatch(Some("\"")).value) == None
    ensures Fts5Phrases(BuildFts5Match(Some("\"")).value) == Some(["\""])
  {
    var q := "\"";
    assert Split(q) == [q] by {
      assert !IsSpace(q[0]) && q[1..] == [];
      assert Split(q[1..]) == [[]];
      assert Split(q) == [[q[0]] + Split(q[1..])[0]] + Split(q[1..])[1..];
      assert Split(q[1..])[0] == [] && Split(q[1..])[1..] == [];
      assert [q[0]] + [] == q;
    }
    assert Escape(q) == "\\\"";
    var e := "\"\\\"\"";
    assert Join(QuoteAll([q]), " ") == e;
    assert Fts5StringBody(e[1..]) == None by {
      assert e[1..] == "\\\"\"";
      assert e[1..][1..] == "\"\"";
      assert Fts5StringBody(e[1..][1..]) == None by {
        assert e[1..][1..][2..] == [];
      }
    }
  }

  /**
   A character that both quotings leave alone once it is inside a piece: not a
   quote, not a backslash, and not a control character (whitespace aside, as
   the split removes it).
   */
  predicate PlainChar(c: char)
  {
    c != '"' && c != '\\' && (0x20 <= c as int || IsSpace(c))
  }

  predicate Plain(s: string)
  {
    forall i :: 0 <= i < |s| ==> PlainChar(s[i])
  }

  /** On a whitespace-free plain piece, `JSON.stringify` and FTS5 quoting both copy the text unchanged. */
  lemma {:induction false} PlainEscape(s: string)
    requires Plain(s) && NoSpace(s)
    ensures Escape(s) == s && DoubleQuotes(s) == s
    decreases |s|
  {
    if s != [] {
      PlainEscape(s[1..]);
      assert EscapeChar(s[0]) == [s[0]];
      assert [s[0]] + s[1..] == s;
    }
  }

  /** Skipping leading whitespace keeps a string plain. */
  lemma {:induction false} SkipPlain(s: string)
    requires Plain(s)
    ensures Plain(SkipSpaces(s))
    decreases |s|
  {
    if s != [] && IsSpace(s[0]) {
      SkipPlain(s[1..]);
    }
  }

  /** Every piece of a plain string is plain. */
  lemma {:induction false} SplitPlain(s: string)
    requires Plain(s)
    ensures forall k :: 0 <= k < |Split(s)| ==> Plain(Split(s)[k])
    decreases |s|
  {
    if s == [] {
    } else if IsSpace(s[0]) {
      SkipPlain(s);
      SplitPlain(SkipSpaces(s));
      var t := Split(SkipSpaces(s));
      assert Split(s) == [[]] + t;
      forall k | 0 < k < |Split(s)| ensures Plain(Split(s)[k]) {
        assert Split(s)[k] == t[k - 1];
      }
    } else {
      SplitPlain(s[1..]);
      var t := Split(s[1..]);
      assert Split(s) == [[s[0]] + t[0]] + t[1..];
      assert Plain(t[0]);
      forall k | 0 < k < |Split(s)| ensures Plain(Split(s)[k]) {
        assert Split(s)[k] == t[k];
      }
    }
  }

  /**
   For a query with no quote, no backslash and no control character other than
   whitespace, the expression as written is the FTS5-quoted one, so FTS5 reads
   it as exactly the whitespace-separated pieces of the query.
   */
  lemma BuildersAgree(q: string)
    requires q != [] && Plain(q)
    ensures BuildMatch(Some(q)) == BuildFts5Match(Some(q))
    ensures BuildMatch(Some(q)).Ok? && Fts5Phrases(BuildMatch(Some(q)).value) == Some(Split(q))
  {
    var pieces := Split(q);
    SplitPlain(q);
    SplitNoSpace(q);
    forall k | 0 <= k < |pieces| ensures QuoteAll(pieces)[k] == Fts5QuoteAll(pieces)[k] {
      PlainEscape(pieces[k]);
    }
    assert QuoteAll(pieces) == Fts5QuoteAll(pieces);
  }
}
