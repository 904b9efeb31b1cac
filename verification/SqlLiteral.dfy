/** Literals as text: `_sql_literal` and the enumeration list of `_sql_column`, tools/semantic_platform_generate.py,
    against the reading of a character string literal in section 5.3 of ISO/IEC 9075-2. */
module SqlLiteral {
  import opened Values
  import opened Database

  /** `str.replace`: leftmost, non-overlapping. */
  function Replace(s: string, what: string, with: string): string
    requires what != ""
    decreases |s|
  {
    if s == "" then ""
    else if what <= s then with + Replace(s[|what|..], what, with)
    else [s[0]] + Replace(s[1..], what, with)
  }

  function Escape(s: string): string {
    Replace(s, "'", "''")
  }

  /** `_sql_literal`; `None` is its error. */
  function LiteralText(value: Json): Option<string> {
    match value
    case JNull => Some("NULL")
    case JBool(b) => Some(if b then "TRUE" else "FALSE")
    case JNumber(_, text) => Some(text)
    case JString(s) => Some("'" + Escape(s) + "'")
    case JArray(_) => None
    case JObject(_) => None
  }

  /** After the opening quote: a doubled quote is a quote, a single one ends the literal. Yields the value
      and the rest. */
  function ReadBody(t: string): Option<(string, string)>
    decreases |t|
  {
    if t == "" then None
    else if t[0] != '\'' then Prepend(t[0], ReadBody(t[1..]))
    else if |t| > 1 && t[1] == '\'' then Prepend('\'', ReadBody(t[2..]))
    else Some(("", t[1..]))
  }

  function Prepend(c: char, r: Option<(string, string)>): Option<(string, string)> {
    match r
    case None => None
    case Some((value, rest)) => Some(([c] + value, rest))
  }

  function ReadLiteral(t: string): Option<(string, string)> {
    if t != "" && t[0] == '\'' then ReadBody(t[1..]) else None
  }

  /** The constant that a whole text denotes: a keyword, a character string literal, or else a number. */
  function ReadConstant(t: string): Option<Literal> {
    if t == "NULL" then Some(NullLiteral)
    else if t == "TRUE" then Some(BooleanLiteral(true))
    else if t == "FALSE" then Some(BooleanLiteral(false))
    else if t != "" && t[0] == '\'' then
      match ReadLiteral(t)
      case Some((value, "")) => Some(TextLiteral(value))
      case _ => None
    else Some(NumberLiteral(t))
  }

  predicate EndsLiteral(rest: string) {
    rest == "" || rest[0] != '\''
  }

  lemma EscapeStep(s: string)
    requires s != ""
    ensures Escape(s) == (if s[0] == '\'' then "''" else [s[0]]) + Escape(s[1..])
  {
    assert "'" <= s <==> s[0] == '\'';
    assert s[|"'"|..] == s[1..];
  }

  /** Escaped text reads back. */
  lemma {:induction false} EscapedReadsBack(s: string, rest: string)
    requires EndsLiteral(rest)
    ensures ReadBody(Escape(s) + "'" + rest) == Some((s, rest))
    decreases |s|
  {
    if s == "" {
      assert Escape(s) + "'" + rest == "'" + rest;
      assert ("'" + rest)[1..] == rest;
    } else {
      EscapeStep(s);
      var tail := Escape(s[1..]) + "'" + rest;
      EscapedReadsBack(s[1..], rest);
      if s[0] == '\'' {
        assert Escape(s) + "'" + rest == "''" + tail;
        assert ("''" + tail)[2..] == tail;
      } else {
        assert Escape(s) + "'" + rest == [s[0]] + tail;
        assert ([s[0]] + tail)[1..] == tail;
      }
      assert [s[0]] + s[1..] == s;
    }
  }

  /** And nothing else reads as that value: what was read is the escaped value, a quote, and the rest. */
  lemma {:induction false} ReadMeansEscaped(t: string)
    requires ReadBody(t).Some?
    ensures t == Escape(ReadBody(t).value.0) + "'" + ReadBody(t).value.1
    decreases |t|
  {
    var (value, rest) := ReadBody(t).value;
    if t[0] != '\'' {
      ReadMeansEscaped(t[1..]);
      EscapeStep(value);
      assert value[1..] == ReadBody(t[1..]).value.0;
      assert t == [t[0]] + t[1..];
    } else if |t| > 1 && t[1] == '\'' {
      ReadMeansEscaped(t[2..]);
      EscapeStep(value);
      assert value[1..] == ReadBody(t[2..]).value.0;
      assert t == "''" + t[2..];
    } else {
      assert t == "'" + t[1..];
    }
  }

  /** Reading back the literal of any string, whatever follows it short of another quote, recovers the string. */
  lemma LiteralRoundTrip(s: string, rest: string)
    requires EndsLiteral(rest)
    ensures LiteralText(JString(s)).Some?
    ensures ReadLiteral(LiteralText(JString(s)).value + rest) == Some((s, rest))
  {
    EscapedReadsBack(s, rest);
    var text := "'" + Escape(s) + "'" + rest;
    assert text[1..] == Escape(s) + "'" + rest;
  }

  /** How `str` begins a finite number. */
  predicate IsNumberText(t: string) {
    t != "" && (t[0] == '-' || '0' <= t[0] <= '9')
  }

  /** A JSON value as a constant: scalars have one, and it is of their own kind. */
  predicate IsConstantOf(value: Json, literal: Option<Literal>) {
    match value
    case JNull => literal == Some(NullLiteral)
    case JBool(b) => literal == Some(BooleanLiteral(b))
    case JNumber(_, text) => literal == Some(NumberLiteral(text))
    case JString(s) => literal == Some(TextLiteral(s))
    case JArray(_) => literal == None
    case JObject(_) => literal == None
  }

  /** The text of a scalar is read back as the value itself. */
  lemma LiteralTextIsRead(value: Json)
    requires value.JNumber? ==> IsNumberText(value.text)
    ensures LiteralText(value).Some? ==> IsConstantOf(value, ReadConstant(LiteralText(value).value))
    ensures LiteralText(value) == None <==> value.JArray? || value.JObject?
  {
    match value {
      case JString(s) =>
        LiteralRoundTrip(s, "");
        var text := LiteralText(value).value;
        assert text + "" == text && text[0] == '\'';
      case JNumber(_, text) =>
        assert "NULL"[0] == 'N' && "TRUE"[0] == 'T' && "FALSE"[0] == 'F';
      case _ =>
    }
  }

  // ----- enumeration lists, whose values are quoted but not escaped

  function Quotes(s: string): nat {
    if s == "" then 0 else (if s[0] == '\'' then 1 else 0) + Quotes(s[1..])
  }

  lemma {:induction false} EscapeLength(s: string)
    ensures |Escape(s)| == |s| + Quotes(s)
    ensures Quotes(s) == 0 <==> '\'' !in s
  {
    if s != "" {
      EscapeStep(s);
      EscapeLength(s[1..]);
      assert s == [s[0]] + s[1..];
    }
  }

  lemma {:induction false} NoQuoteNoEscape(s: string)
    requires '\'' !in s
    ensures Escape(s) == s
  {
    if s != "" {
      EscapeStep(s);
      NoQuoteNoEscape(s[1..]);
    }
  }

  /** `", ".join(f"'{value}'" for value in values)` */
  function ListText(values: seq<string>): string {
    if values == [] then ""
    else if |values| == 1 then "'" + values[0] + "'"
    else "'" + values[0] + "'" + ", " + ListText(values[1..])
  }

  function Escaped(values: seq<string>): (r: seq<string>)
    ensures |r| == |values| && forall i :: 0 <= i < |values| ==> r[i] == Escape(values[i])
  {
    seq(|values|, i requires 0 <= i < |values| => Escape(values[i]))
  }

  /** Reading `'…', '…')`. */
  function ReadList(t: string): Option<seq<string>>
    decreases |t|
  {
    match ReadLiteral(t)
    case None => None
    case Some((value, rest)) =>
      ReadShortens(t);
      if rest == ")" then Some([value])
      else if ", " <= rest then
        match ReadList(rest[2..])
        case None => None
        case Some(more) => Some([value] + more)
      else None
  }

  lemma {:induction false} BodyShortens(t: string)
    ensures ReadBody(t).Some? ==> |ReadBody(t).value.1| < |t|
    decreases |t|
  {
    if t != "" && t[0] != '\'' {
      BodyShortens(t[1..]);
    } else if |t| > 1 && t[1] == '\'' {
      BodyShortens(t[2..]);
    }
  }

  lemma ReadShortens(t: string)
    ensures ReadLiteral(t).Some? ==> |ReadLiteral(t).value.1| < |t|
  {
    if t != "" {
      BodyShortens(t[1..]);
    }
  }

  lemma LiteralReadMeansEscaped(t: string, value: string, rest: string)
    requires ReadLiteral(t) == Some((value, rest))
    ensures t == "'" + Escape(value) + "'" + rest
  {
    ReadMeansEscaped(t[1..]);
    assert t == "'" + t[1..];
  }

  lemma ListTextOfCons(value: string, more: seq<string>)
    requires more != []
    ensures ListText(Escaped([value] + more)) == "'" + Escape(value) + "'" + ", " + ListText(Escaped(more))
  {
    assert Escaped([value] + more)[1..] == Escaped(more);
  }

  lemma {:induction false} ListReadMeansEscaped(t: string)
    requires ReadList(t).Some?
    ensures ReadList(t).value != [] && t == ListText(Escaped(ReadList(t).value)) + ")"
    decreases |t|
  {
    var (value, rest) := ReadLiteral(t).value;
    LiteralReadMeansEscaped(t, value, rest);
    if rest == ")" {
      assert Escaped([value]) == [Escape(value)];
    } else {
      ReadShortens(t);
      ListReadMeansEscaped(rest[2..]);
      ListTextOfCons(value, ReadList(rest[2..]).value);
      assert rest == ", " + rest[2..];
    }
  }

  lemma PlainReadsBack(v: string, rest: string, t: string)
    requires '\'' !in v && EndsLiteral(rest) && t == "'" + v + "'" + rest
    ensures ReadLiteral(t) == Some((v, rest))
  {
    NoQuoteNoEscape(v);
    EscapedReadsBack(v, rest);
    assert t[1..] == v + "'" + rest;
  }

  lemma ReadListEnd(t: string, v: string)
    requires ReadLiteral(t) == Some((v, ")"))
    ensures ReadList(t) == Some([v])
  {
    ReadShortens(t);
  }

  lemma ReadListStep(t: string, v: string, rest: string, values: seq<string>)
    requires ReadLiteral(t) == Some((v, rest)) && ", " <= rest && ReadList(rest[2..]) == Some(values)
    ensures ReadList(t) == Some([v] + values)
  {
    ReadShortens(t);
  }

  lemma PlainListCons(v: string, more: string, t: string, values: seq<string>)
    requires '\'' !in v && t == "'" + v + "'" + (", " + more) && ReadList(more) == Some(values)
    ensures ReadList(t) == Some([v] + values)
  {
    var rest := ", " + more;
    PlainReadsBack(v, rest, t);
    assert rest[2..] == more;
    ReadListStep(t, v, rest, values);
  }

  lemma ListTextCons(values: seq<string>)
    requires |values| > 1
    ensures ListText(values) + ")" == "'" + values[0] + "'" + (", " + (ListText(values[1..]) + ")"))
  {
  }

  lemma ListTextOne(values: seq<string>)
    requires |values| == 1 && '\'' !in values[0]
    ensures ReadList(ListText(values) + ")") == Some(values)
  {
    var t := ListText(values) + ")";
    PlainReadsBack(values[0], ")", t);
    ReadListEnd(t, values[0]);
    assert values == [values[0]];
  }

  lemma PlainListStep(values: seq<string>)
    requires |values| > 1 && '\'' !in values[0]
    requires ReadList(ListText(values[1..]) + ")") == Some(values[1..])
    ensures ReadList(ListText(values) + ")") == Some(values)
  {
    ListTextCons(values);
    PlainListCons(values[0], ListText(values[1..]) + ")", ListText(values) + ")", values[1..]);
    assert values == [values[0]] + values[1..];
  }

  lemma {:induction false} PlainListReadsBack(values: seq<string>)
    requires values != [] && forall v :: v in values ==> '\'' !in v
    ensures ReadList(ListText(values) + ")") == Some(values)
  {
    if |values| == 1 {
      ListTextOne(values);
    } else {
      PlainListReadsBack(values[1..]);
      PlainListStep(values);
    }
  }

  function TotalQuotes(values: seq<string>): nat {
    if values == [] then 0 else Quotes(values[0]) + TotalQuotes(values[1..])
  }

  lemma {:induction false} EscapedListLength(values: seq<string>)
    ensures |ListText(Escaped(values))| == |ListText(values)| + TotalQuotes(values)
  {
    if values != [] {
      EscapeLength(values[0]);
      EscapedListLength(values[1..]);
      assert Escaped(values)[1..] == Escaped(values[1..]);
    }
  }

  lemma {:induction false} NoQuotesAtAll(values: seq<string>)
    ensures TotalQuotes(values) == 0 <==> forall v :: v in values ==> '\'' !in v
  {
    if values != [] {
      EscapeLength(values[0]);
      NoQuotesAtAll(values[1..]);
      assert values == [values[0]] + values[1..];
    }
  }

  /** The generated CHECK list denotes the enumeration exactly when no value contains a quote: its values are quoted
      but, unlike literals, not escaped. */
  lemma EnumListReadsBackIff(values: seq<string>)
    requires values != []
    ensures ReadList(ListText(values) + ")") == Some(values) <==> forall v :: v in values ==> '\'' !in v
  {
    NoQuotesAtAll(values);
    if forall v :: v in values ==> '\'' !in v {
      PlainListReadsBack(values);
    }
    if ReadList(ListText(values) + ")") == Some(values) {
      ListReadMeansEscaped(ListText(values) + ")");
      EscapedListLength(values);
    }
  }

  /** The values a CHECK over the generated list compares with; `None` if the text is no list of string literals that
      the server takes: an empty one, one broken by a quote, or one with a NUL character. */
  function ListedValues(values: seq<string>): Option<set<string>> {
    match ReadList(ListText(values) + ")")
    case None => None
    case Some(read) => if exists v | v in read :: '\0' in v then None else Some(set v | v in read)
  }

  /** An enumeration without quotes and NUL characters is compared with as it is. */
  lemma PlainValuesAreListed(values: seq<string>)
    requires values != [] && forall v | v in values :: '\'' !in v && '\0' !in v
    ensures ListedValues(values) == Some(set v | v in values)
  {
    EnumListReadsBackIff(values);
  }

  lemma ReadCharacter(c: char, t: string, value: string, rest: string)
    requires c != '\'' && ReadBody(t) == Some((value, rest))
    ensures ReadBody([c] + t) == Some(([c] + value, rest))
  {
    assert ([c] + t)[1..] == t;
  }

  /** A value with a quote in it: the list cannot be read at all. */
  lemma QuotedValueBreaksList()
    ensures ReadList(ListText(["it's"]) + ")") == None && ListedValues(["it's"]) == None
  {
    var t := ListText(["it's"]) + ")";
    assert t == "'it's')" && t[1..] == "it's')" && "'s')"[1..] == "s')";
    assert ReadBody("'s')") == Some(("", "s')"));
    ReadCharacter('t', "'s')", "", "s')");
    assert ['t'] + "'s')" == "t's')" && ['t'] + "" == "t";
    ReadCharacter('i', "t's')", "t", "s')");
    assert ['i'] + "t's')" == "it's')";
  }
}
