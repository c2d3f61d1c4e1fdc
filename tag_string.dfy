/** The recipe feature builder: the defensive list-field parser `to_list`
    and `build_tag_string`, which turns a recipe's `ingredients` and `tags`
    cells into one space-separated search text. */
module TagString {
  import opened PyStr

  /** A recipe's `ingredients` or `tags` cell: either an actual list of
      strings, or text — a list literal such as "['a', 'b']" or a
      comma-separated string. */
  datatype Field = List(items: seq<string>) | Text(text: string)

  /** The characters `x.strip(" '\"")` trims from each piece: space and the
      two quote characters, but no other whitespace. */
  const PieceTrim: set<char> := {' ', '\'', '"'}

  /** Removes the first and last character exactly when `s` starts with
      '[' and ends with ']' (`s = s[1:-1]`); this happens once only, so
      inner brackets are kept. */
  function Unbracket(s: string): (r: string)
    ensures r == s <==> !(|s| > 0 && s[0] == '[' && s[|s| - 1] == ']')
    ensures r != s ==> s == "[" + r + "]"
  {
    if |s| > 0 && s[0] == '[' && s[|s| - 1] == ']' then s[1..|s| - 1] else s
  }

  /** The comma-separated pieces of a text cell: whitespace-stripped, one
      layer of brackets removed, then split at every comma. */
  function Pieces(text: string): seq<string> {
    Split(Unbracket(Strip(text, Whitespace)), ',')
  }

  /** A piece survives the filter when `x.strip()` is non-empty. */
  predicate Kept(p: string) {
    Strip(p, Whitespace) != ""
  }

  /** What the comprehension makes of one piece `x`: nothing when
      `x.strip()` is empty, otherwise the one token `x.strip(" '\"")`. */
  function PieceToken(p: string): seq<string> {
    if Kept(p) then [Strip(p, PieceTrim)] else []
  }

  /** `[x.strip(" '\"") for x in pieces if x.strip()]`. */
  function Tokens(pieces: seq<string>): seq<string> {
    if pieces == [] then [] else PieceToken(pieces[0]) + Tokens(pieces[1..])
  }

  /** `to_list(val)`: a list is returned as it is (each element stringified,
      which leaves a string unchanged); text is stripped, unbracketed, split
      at commas, and each piece that is not whitespace-only is trimmed of
      spaces and quotes. */
  function ToList(v: Field): (r: seq<string>)
    ensures v.List? ==> r == v.items
  {
    match v
    case List(items) => items
    case Text(text) => Tokens(Pieces(text))
  }

  /** `row.get(key, '')`: a missing cell reads as the empty text. */
  function Cell(row: map<string, Field>, key: string): Field {
    if key in row then row[key] else Text("")
  }

  /** The tokens `build_tag_string` joins: ingredients first, then tags. */
  function RowTokens(row: map<string, Field>): seq<string> {
    ToList(Cell(row, "ingredients")) + ToList(Cell(row, "tags"))
  }

  /** `build_tag_string(row)`: the tokens of the ingredients followed by
      the tokens of the tags, joined with single spaces. */
  function BuildTagString(row: map<string, Field>): string {
    Join(RowTokens(row), ' ')
  }

  // ---------------------------------------------------------------------
  // Unbracketing

  /** Unbracketing cannot add occurrences of a character. */
  lemma UnbracketCount(s: string, c: char)
    ensures Count(Unbracket(s), c) <= Count(s, c)
  {
    var r := Unbracket(s);
    if r != s {
      CountAppend("[" + r, "]", c);
      CountAppend("[", r, c);
    }
  }

  /** Joining the pieces with commas gives back the unbracketed text, no
      piece holds a comma, and there is at most one more piece than the
      cell has commas. */
  lemma PiecesShape(text: string)
    ensures Join(Pieces(text), ',') == Unbracket(Strip(text, Whitespace))
    ensures NoneContain(Pieces(text), ',')
    ensures 1 <= |Pieces(text)| <= Count(text, ',') + 1
  {
    var s := Strip(text, Whitespace);
    StripCount(text, Whitespace, ',');
    UnbracketCount(s, ',');
  }

  // ---------------------------------------------------------------------
  // The comprehension

  /** The token neither begins nor ends with a space or a quote character. */
  predicate Trimmed(t: string) {
    t != [] ==> t[0] !in PieceTrim && t[|t| - 1] !in PieceTrim
  }

  /** Every token of `ts` is trimmed. */
  predicate AllTrimmed(ts: seq<string>) {
    forall i :: 0 <= i < |ts| ==> Trimmed(ts[i])
  }

  /** The comprehension keeps at most one token per piece. */
  lemma {:induction false} TokensLength(pieces: seq<string>)
    ensures |Tokens(pieces)| <= |pieces|
  {
    if pieces != [] {
      TokensLength(pieces[1..]);
    }
  }

  /** Every token the comprehension keeps is trimmed of spaces and quotes. */
  lemma {:induction false} TokensTrimmed(pieces: seq<string>)
    ensures AllTrimmed(Tokens(pieces))
  {
    if pieces != [] {
      var head := PieceToken(pieces[0]);
      var rest := Tokens(pieces[1..]);
      TokensTrimmed(pieces[1..]);
      StripEnds(pieces[0], PieceTrim);
      assert Trimmed(Strip(pieces[0], PieceTrim));
      forall i | 0 <= i < |head + rest| ensures Trimmed((head + rest)[i]) {
        if i >= |head| { assert (head + rest)[i] == rest[i - |head|]; }
      }
    }
  }

  /** Comma-free pieces give comma-free tokens. */
  lemma {:induction false} TokensCommaFree(pieces: seq<string>)
    requires NoneContain(pieces, ',')
    ensures NoneContain(Tokens(pieces), ',')
  {
    if pieces != [] {
      var head := PieceToken(pieces[0]);
      var rest := Tokens(pieces[1..]);
      assert NoneContain(pieces[1..], ',') by {
        forall i | 0 <= i < |pieces| - 1 ensures ',' !in pieces[1..][i] {
          assert pieces[1..][i] == pieces[i + 1];
        }
      }
      TokensCommaFree(pieces[1..]);
      assert ',' !in pieces[0];
      StripAbsent(pieces[0], PieceTrim, ',');
      forall i | 0 <= i < |head + rest| ensures ',' !in (head + rest)[i] {
        if i >= |head| { assert (head + rest)[i] == rest[i - |head|]; }
      }
    }
  }

  /** Text never yields more tokens than it has commas plus one, and no
      token from text contains a comma or begins or ends with a space or a
      quote. */
  lemma TextTokensShape(text: string)
    ensures |ToList(Text(text))| <= Count(text, ',') + 1
    ensures NoneContain(ToList(Text(text)), ',')
    ensures AllTrimmed(ToList(Text(text)))
  {
    PiecesShape(text);
    TokensLength(Pieces(text));
    TokensTrimmed(Pieces(text));
    TokensCommaFree(Pieces(text));
  }

  /** The comprehension works piece by piece: the tokens of a
      concatenation are the tokens of each part, in order. */
  lemma {:induction false} TokensAppend(a: seq<string>, b: seq<string>)
    ensures Tokens(a + b) == Tokens(a) + Tokens(b)
  {
    if a == [] {
      assert a + b == b;
    } else {
      assert (a + b)[1..] == a[1..] + b;
      TokensAppend(a[1..], b);
    }
  }

  /** A single piece is dropped exactly when it is empty or whitespace-only;
      otherwise it yields one token, the piece trimmed of spaces and quotes. */
  lemma TokensSingle(p: string)
    ensures Tokens([p]) == if AllIn(p, Whitespace) then [] else [Strip(p, PieceTrim)]
  {
    StripEnds(p, Whitespace);
    assert [p][1..] == [];
  }

  /** A piece of spaces and quotes that is not whitespace-only (it holds a
      quote) passes the filter and yields an empty token. */
  lemma QuotePieceGivesEmptyToken(p: string)
    requires AllIn(p, PieceTrim) && !AllIn(p, Whitespace)
    ensures Tokens([p]) == [""]
  {
    StripEnds(p, PieceTrim);
    TokensSingle(p);
  }

  /** A word wrapped in spaces and quotes yields the bare word. */
  lemma WrappedWordToken(pre: string, w: string, post: string)
    requires AllIn(pre, PieceTrim) && AllIn(post, PieceTrim)
    requires w != [] && w[0] !in PieceTrim && w[|w| - 1] !in PieceTrim
    requires w[0] !in Whitespace
    ensures Tokens([pre + w + post]) == [w]
  {
    var p := pre + w + post;
    assert p[|pre|] == w[0];
    TokensSingle(p);
    StripAround(pre, w, post, PieceTrim);
  }

  // ---------------------------------------------------------------------
  // Properties of to_list on text

  /** `to_list` on text, stage by stage. */
  lemma TextStages(text: string, stripped: string, inner: string, pieces: seq<string>)
    requires Strip(text, Whitespace) == stripped
    requires Unbracket(stripped) == inner
    requires Split(inner, ',') == pieces
    ensures ToList(Text(text)) == Tokens(pieces)
  {
  }

  /** Text that is empty or whitespace-only yields no tokens. */
  lemma WhitespaceTextGivesNothing(s: string)
    requires AllIn(s, Whitespace)
    ensures ToList(Text(s)) == []
  {
    StripEnds(s, Whitespace);
    SplitNoSep("", ',');
    TokensSingle("");
    TextStages(s, "", "", [""]);
  }

  /** Text whose stripped form starts with '[' and ends with ']' loses
      exactly that one pair of brackets before it is split. */
  lemma BracketedText(text: string, pre: string, body: string, post: string)
    requires text == pre + "[" + body + "]" + post
    requires AllIn(pre, Whitespace) && AllIn(post, Whitespace)
    ensures ToList(Text(text)) == Tokens(Split(body, ','))
  {
    var b := "[" + body + "]";
    assert text == pre + b + post;
    assert b[0] == '[' && b[|b| - 1] == ']';
    StripAround(pre, b, post, Whitespace);
    assert b[1..|b| - 1] == body;
    TextStages(text, b, body, Split(body, ','));
  }

  /** Text whose stripped form does not both start with '[' and end with
      ']' keeps its brackets: it is split as it stands. */
  lemma UnbracketedText(text: string, pre: string, body: string, post: string)
    requires text == pre + body + post
    requires AllIn(pre, Whitespace) && AllIn(post, Whitespace)
    requires body != [] && body[0] !in Whitespace && body[|body| - 1] !in Whitespace
    requires !(body[0] == '[' && body[|body| - 1] == ']')
    ensures ToList(Text(text)) == Tokens(Split(body, ','))
  {
    StripAround(pre, body, post, Whitespace);
    TextStages(text, body, body, Split(body, ','));
  }

  /** The empty list literal and the empty string yield no tokens. */
  lemma EmptyLiteralGivesNothing()
    ensures ToList(Text("[]")) == []
    ensures ToList(Text("")) == []
  {
    WhitespaceTextGivesNothing("");
    SplitNoSep("", ',');
    TokensSingle("");
    BracketedText("[]", "", "", "");
  }

  /** A word in the sense of the examples below: non-empty, comma-free, and
      neither beginning nor ending with whitespace or a quote. */
  predicate Word(w: string) {
    && w != [] && ',' !in w
    && w[0] !in Whitespace && w[|w| - 1] !in Whitespace
    && w[0] !in PieceTrim && w[|w| - 1] !in PieceTrim
  }

  /** A word wrapped in spaces and quotes, as a piece, yields the bare word. */
  lemma WordPiece(pre: string, w: string, post: string)
    requires Word(w) && AllIn(pre, PieceTrim) && AllIn(post, PieceTrim)
    ensures PieceToken(pre + w + post) == [w]
  {
    WrappedWordToken(pre, w, post);
    assert [pre + w + post][1..] == [];
  }

  /** Two comma-free pieces joined by a comma split back into the two. */
  lemma TwoPieces(p1: string, p2: string)
    requires ',' !in p1 && ',' !in p2
    ensures Split(p1 + "," + p2, ',') == [p1, p2]
  {
    SplitCons(p1, ',', p2);
    SplitNoSep(p2, ',');
  }

  /** The comprehension takes the first piece, then the rest. */
  lemma TokensCons(p: string, ps: seq<string>)
    ensures Tokens([p] + ps) == PieceToken(p) + Tokens(ps)
  {
    assert ([p] + ps)[1..] == ps;
  }

  /** The comprehension over two pieces. */
  lemma TwoTokens(p1: string, p2: string)
    ensures Tokens([p1, p2]) == PieceToken(p1) + PieceToken(p2)
  {
    assert [p2][1..] == [];
    assert Tokens([p2]) == PieceToken(p2) + Tokens([]);
    assert PieceToken(p2) + [] == PieceToken(p2);
    assert [p1, p2][1..] == [p2];
  }

  /** Only one layer of brackets comes off: "[[w]]" gives the one token "[w]". */
  lemma NestedBracketsKeepInner(w: string)
    requires ',' !in w
    ensures ToList(Text("[[" + w + "]]")) == ["[" + w + "]"]
  {
    var inner := "[" + w + "]";
    assert "[[" + w + "]]" == "" + "[" + inner + "]" + "";
    assert inner == "" + inner + "";
    assert inner[0] == '[' && inner[|inner| - 1] == ']';
    SplitNoSep(inner, ',');
    WrappedWordToken("", inner, "");
    BracketedText("[[" + w + "]]", "", inner, "");
  }

  /** A piece made only of quotes and spaces that is not whitespace-only
      is kept as an empty token: "[" + q + "]" gives [""], as "['']" does. */
  lemma QuotedEmptyGivesEmptyToken(q: string)
    requires AllIn(q, PieceTrim) && !AllIn(q, Whitespace)
    ensures ToList(Text("[" + q + "]")) == [""]
  {
    assert "[" + q + "]" == "" + "[" + q + "]" + "";
    assert ',' !in PieceTrim;
    assert ',' !in q;
    SplitNoSep(q, ',');
    QuotePieceGivesEmptyToken(q);
    BracketedText("[" + q + "]", "", q, "");
  }

  /** Tabs are not in the piece trim set: "[\tw\t]" gives the token "\tw\t". */
  lemma TabsSurvivePieceTrim(w: string)
    requires ',' !in w && w != [] && w[0] !in Whitespace
    ensures ToList(Text("[\t" + w + "\t]")) == ["\t" + w + "\t"]
  {
    var p := "\t" + w + "\t";
    assert "[\t" + w + "\t]" == "" + "[" + p + "]" + "";
    assert p == "" + p + "";
    assert p[1] == w[0];
    assert ',' !in p;
    SplitNoSep(p, ',');
    TokensSingle(p);
    StripAround("", p, "", PieceTrim);
    BracketedText("[\t" + w + "\t]", "", p, "");
  }

  /** Python's split keeps the empty piece between two adjacent commas. */
  lemma SplitDoubleComma(a: string, b: string)
    requires ',' !in a && ',' !in b
    ensures Split(a + ",," + b, ',') == [a, "", b]
  {
    var rest := "" + "," + b;
    assert a + ",," + b == a + "," + rest;
    SplitCons(a, ',', rest);
    TwoPieces("", b);
  }

  /** The filter drops the empty middle piece. */
  lemma EmptyMiddleDropped(a: string, b: string)
    requires Word(a) && Word(b)
    ensures Tokens([a, "", b]) == [a, b]
  {
    assert [a, "", b] == [a] + ["", b];
    assert a == "" + a + "" && b == "" + b + "";
    TokensCons(a, ["", b]);
    TwoTokens("", b);
    WordPiece("", a, "");
    WordPiece("", b, "");
    assert PieceToken("") == [] by { StripEnds("", Whitespace); }
  }

  /** Python's split keeps empty pieces, which the filter then drops:
      a + ",," + b gives [a, b]. */
  lemma EmptyPiecesDropped(a: string, b: string)
    requires Word(a) && Word(b) && !(a[0] == '[' && b[|b| - 1] == ']')
    ensures ToList(Text(a + ",," + b)) == [a, b]
  {
    var body := a + ",," + b;
    assert body == "" + body + "";
    assert body[0] == a[0] && body[|body| - 1] == b[|b| - 1];
    SplitDoubleComma(a, b);
    EmptyMiddleDropped(a, b);
    UnbracketedText(body, "", body, "");
  }

  /** A list literal of two quoted words, "['a', 'b']", gives [a, b]. */
  lemma TwoItemLiteral(a: string, b: string)
    requires Word(a) && Word(b)
    ensures ToList(Text("['" + a + "', '" + b + "']")) == [a, b]
  {
    assert [a] + [b] == [a, b];
    var p1 := "'" + a + "'";
    var p2 := " '" + b + "'";
    var body := p1 + "," + p2;
    assert "['" + a + "', '" + b + "']" == "" + "[" + body + "]" + "";
    assert ',' !in p1 && ',' !in p2;
    TwoPieces(p1, p2);
    TwoTokens(p1, p2);
    WordPiece("'", a, "'");
    WordPiece(" '", b, "'");
    BracketedText("['" + a + "', '" + b + "']", "", body, "");
  }

  /** Comma-separated text "a, b" gives [a, b]. */
  lemma TwoItemText(a: string, b: string)
    requires Word(a) && Word(b) && !(a[0] == '[' && b[|b| - 1] == ']')
    ensures ToList(Text(a + ", " + b)) == [a, b]
  {
    assert [a] + [b] == [a, b];
    var p2 := " " + b + "";
    var body := a + "," + p2;
    assert a + ", " + b == "" + body + "";
    assert a == "" + a + "";
    assert ',' !in p2;
    assert body[0] == a[0] && body[|body| - 1] == b[|b| - 1];
    TwoPieces(a, p2);
    TwoTokens(a, p2);
    WordPiece("", a, "");
    WordPiece(" ", b, "");
    UnbracketedText(a + ", " + b, "", body, "");
  }

  // ---------------------------------------------------------------------
  // Properties of build_tag_string

  /** A missing cell contributes no tokens. */
  lemma MissingCellGivesNothing(row: map<string, Field>, key: string)
    requires key !in row
    ensures ToList(Cell(row, key)) == []
  {
    WhitespaceTextGivesNothing("");
  }

  /** The tag string is the ingredients' string, then the tags' string,
      with one space between them when both are non-empty. */
  lemma BuildTagStringParts(row: map<string, Field>)
    ensures var ing := ToList(Cell(row, "ingredients"));
            var tags := ToList(Cell(row, "tags"));
            BuildTagString(row) ==
              if ing == [] then Join(tags, ' ')
              else if tags == [] then Join(ing, ' ')
              else Join(ing, ' ') + " " + Join(tags, ' ')
  {
    JoinAppend(ToList(Cell(row, "ingredients")), ToList(Cell(row, "tags")), ' ');
  }

  /** When there are tokens and every token is free of spaces, splitting
      the tag string at spaces gives back exactly the ingredient tokens
      followed by the tag tokens. */
  lemma TagStringSplitsBack(row: map<string, Field>)
    requires RowTokens(row) != []
    requires NoneContain(RowTokens(row), ' ')
    ensures Split(BuildTagString(row), ' ') == RowTokens(row)
  {
    SplitJoin(RowTokens(row), ' ');
  }

  /** Four words joined with single spaces. */
  lemma JoinFour(a: string, b: string, c: string, d: string)
    ensures Join([a, b, c, d], ' ') == a + " " + b + " " + c + " " + d
  {
    assert [a, b, c, d][1..] == [b, c, d];
    assert [b, c, d][1..] == [c, d];
    assert [c, d][1..] == [d];
    assert Join([c, d], ' ') == c + " " + d;
    assert Join([b, c, d], ' ') == b + " " + (c + " " + d);
  }

  /** The shape of the worked example: ingredients "['a', 'b']" and tags
      "c, d" give the four words joined with single spaces. */
  lemma FourWordTagString(ingredients: string, tags: string,
                          a: string, b: string, c: string, d: string)
    requires ingredients == "['" + a + "', '" + b + "']"
    requires tags == c + ", " + d
    requires Word(a) && Word(b) && Word(c) && Word(d)
    requires !(c[0] == '[' && d[|d| - 1] == ']')
    ensures BuildTagString(map["ingredients" := Text(ingredients), "tags" := Text(tags)])
            == a + " " + b + " " + c + " " + d
  {
    var row := map["ingredients" := Text(ingredients), "tags" := Text(tags)];
    assert [a, b] + [c, d] == [a, b, c, d];
    assert Cell(row, "ingredients") == Text(ingredients);
    assert Cell(row, "tags") == Text(tags);
    TwoItemLiteral(a, b);
    TwoItemText(c, d);
    JoinFour(a, b, c, d);
  }

  /** A non-empty run of lower-case ASCII letters is a word. */
  lemma LowerCaseWord(w: string)
    requires w != [] && forall k :: 0 <= k < |w| ==> 'a' <= w[k] <= 'z'
    ensures Word(w)
  {
  }

  /** The worked example: ingredients "['chicken', 'basil']" and tags
      "spicy, easy" give "chicken basil spicy easy". */
  lemma ChickenBasilExample()
    ensures BuildTagString(map["ingredients" := Text("['chicken', 'basil']"),
                               "tags" := Text("spicy, easy")])
            == "chicken basil spicy easy"
  {
    assert "chicken basil spicy easy" == "chicken" + " " + "basil" + " " + "spicy" + " " + "easy";
    assert "['chicken', 'basil']" == "['" + "chicken" + "', '" + "basil" + "']";
    assert "spicy, easy" == "spicy" + ", " + "easy";
    LowerCaseWord("chicken");
    LowerCaseWord("basil");
    LowerCaseWord("spicy");
    LowerCaseWord("easy");
    FourWordTagString("['chicken', 'basil']", "spicy, easy", "chicken", "basil", "spicy", "easy");
  }
}
