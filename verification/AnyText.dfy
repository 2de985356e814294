/** The text form of Any values, as lists of tokens: printing and parsing. */
module AnyText {
  datatype Result<T> = Ok(value: T) | ParseError

  /** A value, with the comment and the name that belong to it. Tables are kept in the order of their
      keys, in which they are printed. */
  datatype Any =
    | None(comment: string)
    | Boolean(comment: string, truth: bool)
    | Number(comment: string, number: real)
    | Text(comment: string, text: string)
    | Table(comment: string, name: string, entries: seq<Entry>)
    | Array(comment: string, name: string, elements: seq<Any>)

  datatype Entry = Entry(key: string, value: Any)

  datatype Token =
    | StringToken(text: string)
    | NumberToken(number: real)
    | BooleanToken(truth: bool)
    | SymbolToken(text: string)
    | CommentToken(text: string)

  // ----- Characters and names -----

  predicate IsLetter(c: char) { 'a' <= c <= 'z' || 'A' <= c <= 'Z' }

  predicate IsDigit(c: char) { '0' <= c <= '9' }

  predicate IsWhiteSpace(c: char) { c == ' ' || 9 as char <= c <= 13 as char }

  predicate IsOpen(c: char) { c == '(' || c == '[' || c == '{' }

  predicate IsClose(c: char) { c == ')' || c == ']' || c == '}' }

  predicate IsSeparator(c: char) { c == ',' || c == ';' }

  function ToUpper(s: string): (r: string)
    ensures |r| == |s|
  {
    seq(|s|, i requires 0 <= i < |s| => if 'a' <= s[i] <= 'z' then (s[i] as int - 32) as char else s[i])
  }

  /** Without the white space at both ends. */
  function Trim(s: string): string
    decreases |s|
  {
    if s == "" then ""
    else if IsWhiteSpace(s[0]) then Trim(s[1..])
    else if IsWhiteSpace(s[|s| - 1]) then Trim(s[..|s| - 1])
    else s
  }

  predicate Quoted(s: string, i: nat)
    decreases |s| - i
  {
    if i >= |s| then false
    else
      var c := s[i];
      var p := if i == |s| - 1 then '_' else s[i + 1];
      if (c == '-' && p == '>') || (c == ':' && p == ':') then Quoted(s, i + 2)
      else (!IsDigit(c) && !IsLetter(c) && c != '.') || Quoted(s, i + 1)
  }

  /** Whether the name of a table is printed as a quoted string. */
  predicate NeedsQuotes(s: string)
    requires s != ""
  {
    (!IsLetter(s[0]) && s[0] != '_') || Quoted(s, 0)
  }

  /** A name that reads back as one symbol: no number, no truth value. */
  predicate IsIdentifier(s: string) {
    && s != "" && (IsLetter(s[0]) || s[0] == '_')
    && (forall i :: 0 <= i < |s| ==> IsLetter(s[i]) || IsDigit(s[i]) || s[i] == '_')
    && ToUpper(s) != "TRUE" && ToUpper(s) != "FALSE" && s != "nan" && s != "inf"
  }

  // ----- Printing -----

  function CommentTokens(comment: string): seq<Token> {
    if comment == "" then [] else [CommentToken(" " + comment + " ")]
  }

  function Serialize(v: Any): seq<Token>
    decreases v, 1
  {
    CommentTokens(v.comment) + SerializeBare(v)
  }

  function SerializeBare(v: Any): seq<Token>
    decreases v, 0
  {
    match v
    case None(_) => [SymbolToken("NONE")]
    case Boolean(_, b) => [BooleanToken(b)]
    case Number(_, x) => [NumberToken(x)]
    case Text(_, s) => [StringToken(s)]
    case Table(_, name, entries) => TableName(name) + [SymbolToken("{")] + SerializeEntries(entries) + [SymbolToken("}")]
    case Array(_, name, elements) => ArrayName(name) + [SymbolToken("(")] + SerializeElements(elements) + [SymbolToken(")")]
  }

  function TableName(name: string): seq<Token> {
    if name == "" then [] else if NeedsQuotes(name) then [StringToken(name)] else [SymbolToken(name)]
  }

  function ArrayName(name: string): seq<Token> {
    if name == "" then [] else [SymbolToken(name)]
  }

  function SerializeEntries(entries: seq<Entry>): seq<Token>
    decreases entries
  {
    if entries == [] then []
    else
      [SymbolToken(entries[0].key), SymbolToken("=")] + Serialize(entries[0].value)
      + (if |entries| > 1 then [SymbolToken(",")] else []) + SerializeEntries(entries[1..])
  }

  function SerializeElements(elements: seq<Any>): seq<Token>
    decreases elements
  {
    if elements == [] then []
    else
      Serialize(elements[0]) + (if |elements| > 1 then [SymbolToken(",")] else []) + SerializeElements(elements[1..])
  }

  // ----- Parsing: s holds the current token and those after it -----

  function Next(s: seq<Token>): (r: seq<Token>)
    ensures |r| <= |s| && (s != [] ==> |r| < |s|)
  {
    if s == [] then [] else s[1..]
  }

  predicate AtSymbol(s: seq<Token>) {
    s != [] && s[0].SymbolToken? && s[0].text != ""
  }

  /** The first character of the current token's text; numbers and truth values start no punctuation. */
  function FirstChar(s: seq<Token>): char {
    if s != [] && (s[0].SymbolToken? || s[0].StringToken? || s[0].CommentToken?) && s[0].text != "" then s[0].text[0]
    else 0 as char
  }

  predicate Closes(s: seq<Token>, close: char) {
    AtSymbol(s) && s[0].text[0] == close
  }

  function CollectComment(s: seq<Token>, comment: string): (r: (string, seq<Token>))
    ensures |r.1| <= |s|
    decreases |s|
  {
    if s != [] && s[0].CommentToken? then CollectComment(Next(s), comment + Trim(s[0].text) + "\n" + "\n")
    else (comment, s)
  }

  /** All comments here, and the token after them. */
  function DeserializeComment(s: seq<Token>): (r: (string, seq<Token>))
    ensures |r.1| <= |s|
  {
    var (comment, t) := CollectComment(s, "");
    (Trim(comment), t)
  }

  function SkipComments(s: seq<Token>): (r: seq<Token>)
    ensures |r| <= |s|
    decreases |s|
  {
    if s != [] && s[0].CommentToken? then SkipComments(s[1..]) else s
  }

  /** Symbols up to an opening one, joined to a name. */
  function DeserializeName(s: seq<Token>, name: string): (r: Result<(string, seq<Token>)>)
    requires AtSymbol(s)
    ensures r.Ok? ==> |r.value.1| <= |s| && AtSymbol(r.value.1) && IsOpen(r.value.1[0].text[0])
    decreases |s|
  {
    if IsOpen(s[0].text[0]) then Ok((name, s))
    else
      var t := SkipComments(Next(s));
      if AtSymbol(t) then DeserializeName(t, name + s[0].text) else ParseError
  }

  function ReadUntilCommaOrClose(s: seq<Token>): (r: Result<seq<Token>>)
    ensures r.Ok? ==> |r.value| <= |s|
    decreases |s|
  {
    if (AtSymbol(s) && IsClose(s[0].text[0])) || IsSeparator(FirstChar(s)) then Ok(s)
    else if s != [] && s[0].CommentToken? then ReadUntilCommaOrClose(Next(s))
    else ParseError
  }

  function WithComment(v: Any, comment: string): Any {
    if comment == "" then v else v.(comment := comment)
  }

  /** Lexicographic order of keys. */
  predicate Less(a: string, b: string)
    decreases |a|
  {
    b != "" && (a == "" || a[0] < b[0] || (a[0] == b[0] && Less(a[1..], b[1..])))
  }

  /** A table with the key set to the value, its entries in order. */
  function SetEntry(entries: seq<Entry>, e: Entry): seq<Entry>
    decreases |entries|
  {
    if entries == [] then [e]
    else if entries[0].key == e.key then [e] + entries[1..]
    else if Less(e.key, entries[0].key) then [e] + entries
    else [entries[0]] + SetEntry(entries[1..], e)
  }

  function Deserialize(s: seq<Token>): (r: Result<(Any, seq<Token>)>)
    ensures r.Ok? ==> |r.value.1| < |s|
    decreases |s|, 2
  {
    var (comment, t) := DeserializeComment(s);
    match DeserializeBare(t)
    case ParseError => ParseError
    case Ok((v, rest)) => Ok((WithComment(v, comment), rest))
  }

  /** A value after its comments. Including another file is not part of the model. */
  function DeserializeBare(s: seq<Token>): (r: Result<(Any, seq<Token>)>)
    ensures r.Ok? ==> |r.value.1| < |s|
    decreases |s|, 1
  {
    if s == [] then ParseError
    else
      match s[0]
      case StringToken(text) => Ok((Text("", text), s[1..]))
      case NumberToken(x) => Ok((Number("", x), s[1..]))
      case BooleanToken(b) => Ok((Boolean("", b), s[1..]))
      case CommentToken(_) => ParseError
      case SymbolToken(text) =>
        if text == "" || text == "#" then ParseError
        else if ToUpper(text) == "NONE" then Ok((None(""), s[1..]))
        else
          match DeserializeName(s, "")
          case ParseError => ParseError
          case Ok((name, t)) => DeserializeBody(t, name)
  }

  function DeserializeBody(s: seq<Token>, name: string): (r: Result<(Any, seq<Token>)>)
    requires AtSymbol(s) && IsOpen(s[0].text[0])
    ensures r.Ok? ==> |r.value.1| < |s|
    decreases |s|, 0
  {
    var c := s[0].text[0];
    if c == '{' then
      match DeserializeEntries(s[1..], [])
      case ParseError => ParseError
      case Ok((entries, rest)) => Ok((Table("", name, entries), rest))
    else
      match DeserializeElements(s[1..], if c == '(' then ')' else ']', [])
      case ParseError => ParseError
      case Ok((elements, rest)) => Ok((Array("", name, elements), rest))
  }

  function DeserializeElements(s: seq<Token>, close: char, done: seq<Any>): (r: Result<(seq<Any>, seq<Token>)>)
    ensures r.Ok? ==> |r.value.1| <= |s|
    decreases |s|, 3
  {
    if Closes(s, close) then Ok((done, Next(s)))
    else
      var (comment, t) := DeserializeComment(s);
      if Closes(t, close) then Ok((done, Next(t)))
      else
        match Deserialize(t)
        case ParseError => ParseError
        case Ok((v, u)) =>
          match ReadUntilCommaOrClose(u)
          case ParseError => ParseError
          case Ok(w) =>
            var x := if IsSeparator(FirstChar(w)) then Next(w) else w;
            DeserializeElements(x, close, done + [Prepended(v, comment)])
  }

  /** A value with the comment found before it put in front of its own. */
  function Prepended(v: Any, comment: string): Any {
    if comment == "" then v else v.(comment := Trim(comment + "\n" + v.comment))
  }

  function DeserializeEntries(s: seq<Token>, done: seq<Entry>): (r: Result<(seq<Entry>, seq<Token>)>)
    ensures r.Ok? ==> |r.value.1| <= |s|
    decreases |s|, 3
  {
    if Closes(s, '}') then Ok((done, Next(s)))
    else
      var (comment, t) := DeserializeComment(s);
      if Closes(t, '}') then Ok((done, Next(t)))
      else if t == [] || !(t[0].SymbolToken? || t[0].StringToken?) then ParseError
      else
        var q := SkipComments(Next(t));
        if !(AtSymbol(q) && q[0].text == "=") then ParseError
        else
          match Deserialize(Next(q))
          case ParseError => ParseError
          case Ok((v, u)) =>
            match ReadUntilCommaOrClose(u)
            case ParseError => ParseError
            case Ok(w) =>
              var x := if IsSeparator(FirstChar(w)) then Next(w) else w;
              DeserializeEntries(x, SetEntry(done, Entry(t[0].text, Prepended(v, comment))))
  }

  // ----- Comments and names come back -----

  lemma {:induction false} TrimShortens(s: string)
    ensures |Trim(s)| <= |s|
    decreases |s|
  {
    if s != "" && IsWhiteSpace(s[0]) {
      TrimShortens(s[1..]);
    } else if s != "" && IsWhiteSpace(s[|s| - 1]) {
      TrimShortens(s[..|s| - 1]);
    }
  }

  /** A trimmed text is black at both ends. */
  lemma TrimmedEnds(s: string)
    requires Trim(s) == s && s != ""
    ensures !IsWhiteSpace(s[0]) && !IsWhiteSpace(s[|s| - 1])
  {
    TrimShortens(s[1..]);
    TrimShortens(s[..|s| - 1]);
  }

  predicate AllWhite(s: string) {
    forall i :: 0 <= i < |s| ==> IsWhiteSpace(s[i])
  }

  lemma {:induction false} TrimPadded(left: string, s: string, right: string)
    requires AllWhite(left) && AllWhite(right) && Trim(s) == s && s != ""
    ensures Trim(left + s + right) == s
    decreases |left| + |right|
  {
    TrimmedEnds(s);
    var t := left + s + right;
    if left != "" {
      assert t[1..] == left[1..] + s + right;
      TrimPadded(left[1..], s, right);
    } else if right != "" {
      assert t[..|t| - 1] == left + s + right[..|right| - 1];
      TrimPadded(left, s, right[..|right| - 1]);
    } else {
      assert t == s;
    }
  }

  predicate AtComment(s: seq<Token>) {
    s != [] && s[0].CommentToken?
  }

  lemma NoComment(t: seq<Token>)
    requires !AtComment(t)
    ensures DeserializeComment(t) == ("", t)
  {
    assert Trim("") == "";
  }

  lemma CommentReadsBack(comment: string, t: seq<Token>)
    requires Trim(comment) == comment && !AtComment(t)
    ensures DeserializeComment(CommentTokens(comment) + t) == (comment, t)
    ensures comment != "" ==> Trim(comment + "\n") == comment
  {
    if comment == "" {
      NoComment(t);
      assert CommentTokens(comment) + t == t;
    } else {
      var s := CommentTokens(comment) + t;
      TrimPadded(" ", comment, " ");
      TrimPadded("", comment, "\n\n");
      TrimPadded("", comment, "\n");
      assert Next(s) == t;
      assert "" + comment + "\n" + "\n" == "" + comment + "\n\n";
      assert "" + comment + "\n" == comment + "\n";
      assert CollectComment(s, "") == CollectComment(t, "" + comment + "\n" + "\n");
    }
  }

  lemma ParagraphsAreTrimmed(a: string, b: string)
    requires Trim(a) == a && a != "" && Trim(b) == b && b != ""
    ensures Trim(a + "\n\n" + b + "\n\n") == a + "\n\n" + b
  {
    TrimmedEnds(a);
    TrimmedEnds(b);
    var both := a + "\n\n" + b;
    assert both[0] == a[0] && both[|both| - 1] == b[|b| - 1];
    assert Trim(both) == both;
    TrimPadded("", both, "\n\n");
    assert "" + both + "\n\n" == both + "\n\n";
  }

  lemma CollectStep(comment: string, text: string, t: seq<Token>)
    requires Trim(text) == text && text != ""
    ensures CollectComment([CommentToken(" " + text + " ")] + t, comment) == CollectComment(t, comment + text + "\n\n")
  {
    var s := [CommentToken(" " + text + " ")] + t;
    TrimPadded(" ", text, " ");
    assert Next(s) == t;
    assert comment + text + "\n" + "\n" == comment + text + "\n\n";
  }

  /** Comments in a row become paragraphs of one. */
  lemma CommentsReadTogether(a: string, b: string, t: seq<Token>)
    requires Trim(a) == a && a != "" && Trim(b) == b && b != "" && !AtComment(t)
    ensures DeserializeComment([CommentToken(" " + a + " ")] + ([CommentToken(" " + b + " ")] + t)) == (a + "\n\n" + b, t)
  {
    hide Trim;
    CollectStep("", a, [CommentToken(" " + b + " ")] + t);
    assert "" + a + "\n\n" == a + "\n\n";
    CollectStep(a + "\n\n", b, t);
    ParagraphsAreTrimmed(a, b);
  }

  // ----- Characters and quotes, said another way -----

  lemma LettersAreLetters(c: char)
    ensures IsLetter(c) <==> c in {
      'a', 'b', 'c', 'd', 'e', 'f', 'g', 'h', 'i', 'j', 'k', 'l', 'm',
      'n', 'o', 'p', 'q', 'r', 's', 't', 'u', 'v', 'w', 'x', 'y', 'z',
      'A', 'B', 'C', 'D', 'E', 'F', 'G', 'H', 'I', 'J', 'K', 'L', 'M',
      'N', 'O', 'P', 'Q', 'R', 'S', 'T', 'U', 'V', 'W', 'X', 'Y', 'Z'}
  {
  }

  lemma OtherCharacters(c: char)
    ensures IsDigit(c) <==> c in {'0', '1', '2', '3', '4', '5', '6', '7', '8', '9'}
    ensures IsWhiteSpace(c) <==> c in {' ', '\t', '\n', 11 as char, 12 as char, '\r'}
  {
  }

  lemma NoneInAnyCase(s: string)
    ensures ToUpper(s) == "NONE" <==>
      |s| == 4 && s[0] in {'n', 'N'} && s[1] in {'o', 'O'} && s[2] in {'n', 'N'} && s[3] in {'e', 'E'}
  {
    if |s| == 4 {
      var u := ToUpper(s);
      assert u == "NONE" <==> u[0] == 'N' && u[1] == 'O' && u[2] == 'N' && u[3] == 'E';
    }
  }

  /** What names are made of that need no quotes: single characters, arrows and double colons. */
  predicate IsPiece(p: string) {
    p == "->" || p == "::" || (|p| == 1 && (IsLetter(p[0]) || IsDigit(p[0]) || p[0] == '.'))
  }

  function Joined(pieces: seq<string>): string {
    if pieces == [] then "" else pieces[0] + Joined(pieces[1..])
  }

  ghost predicate MadeOfPieces(s: string) {
    exists pieces: seq<string> :: (forall p :: p in pieces ==> IsPiece(p)) && Joined(pieces) == s
  }

  lemma {:induction false} UnquotedPieces(s: string, i: nat) returns (pieces: seq<string>)
    requires i <= |s| && !Quoted(s, i)
    ensures (forall p :: p in pieces ==> IsPiece(p)) && Joined(pieces) == s[i..]
    decreases |s| - i
  {
    if i == |s| {
      pieces := [];
    } else {
      var n := if i + 1 < |s| && (s[i..i + 2] == "->" || s[i..i + 2] == "::") then 2 else 1;
      var others := UnquotedPieces(s, i + n);
      pieces := [s[i..i + n]] + others;
      assert pieces[1..] == others && s[i..] == s[i..i + n] + s[i + n..];
    }
  }

  lemma {:induction false} PiecesAreUnquoted(pieces: seq<string>, s: string, i: nat)
    requires i <= |s| && Joined(pieces) == s[i..] && forall p :: p in pieces ==> IsPiece(p)
    ensures !Quoted(s, i)
    decreases |pieces|
  {
    if pieces != [] {
      var p := pieces[0];
      assert p in pieces && s[i..][..|p|] == p && s[i..][|p|..] == Joined(pieces[1..]);
      assert s[i..][0] == p[0] == s[i] && (|p| == 2 ==> s[i..][1] == p[1] == s[i + 1]);
      assert s[i..][|p|..] == s[i + |p|..];
      PiecesAreUnquoted(pieces[1..], s, i + |p|);
    }
  }

  /** A name is printed without quotes exactly when it starts with a letter and is made of such pieces. */
  lemma NeedsQuotesIff(s: string)
    requires s != ""
    ensures NeedsQuotes(s) <==> !(IsLetter(s[0]) && MadeOfPieces(s))
  {
    assert s[0..] == s;
    if !Quoted(s, 0) {
      var pieces := UnquotedPieces(s, 0);
      assert MadeOfPieces(s);
    }
    if MadeOfPieces(s) {
      var pieces: seq<string> :| (forall p :: p in pieces ==> IsPiece(p)) && Joined(pieces) == s;
      PiecesAreUnquoted(pieces, s, 0);
    }
  }

  /** An identifier is printed in quotes exactly when there is an underscore in it. */
  lemma {:induction false} QuotedFrom(s: string, i: nat)
    requires forall k :: 0 <= k < |s| ==> IsLetter(s[k]) || IsDigit(s[k]) || s[k] == '_'
    ensures Quoted(s, i) <==> exists k :: i <= k < |s| && s[k] == '_'
    decreases |s| - i
  {
    if i < |s| {
      QuotedFrom(s, i + 1);
    }
  }

  lemma QuotesIff(s: string)
    requires IsIdentifier(s)
    ensures NeedsQuotes(s) <==> '_' in s
  {
    QuotedFrom(s, 0);
  }

  // ----- Values that are printed, and those that come back -----

  predicate IsName(name: string) {
    name == "" || IsIdentifier(name)
  }

  /** Values within the reach of the token view: comments without white space around them, names and
      keys that are identifiers, and the entries of a table in order. */
  predicate WellFormed(v: Any)
    decreases v
  {
    && Trim(v.comment) == v.comment
    && (v.Table? ==>
      && IsName(v.name)
      && (forall e :: e in v.entries ==> IsIdentifier(e.key) && WellFormed(e.value))
      && Ordered(v.entries))
    && (v.Array? ==> IsName(v.name) && forall e :: e in v.elements ==> WellFormed(e))
  }

  predicate IsNone(name: string) {
    ToUpper(name) == "NONE"
  }

  /** The names that go wrong: a table name with an underscore is printed as a string, and a name that
      spells "none" is taken for the empty value. */
  predicate BadName(v: Any) {
    (v.Table? && ('_' in v.name || IsNone(v.name))) || (v.Array? && IsNone(v.name))
  }

  predicate Readable(v: Any)
    decreases v
  {
    && !BadName(v)
    && (v.Table? ==> forall e :: e in v.entries ==> Readable(e.value))
    && (v.Array? ==> forall e :: e in v.elements ==> Readable(e))
  }

  function Bare(v: Any): Any {
    v.(comment := "")
  }

  /** What parsing the print of v without its comment gives: the value, or an error, or, for a bad name
      of its own, something else with an opening bracket left over. */
  ghost predicate Outcome(v: Any, rest: seq<Token>, r: Result<(Any, seq<Token>)>) {
    if Readable(v) then r == Ok((Bare(v), rest))
    else if BadName(v) then
      r.Ok? && !r.value.0.Table? && !r.value.0.Array? && AtSymbol(r.value.1) && IsOpen(r.value.1[0].text[0])
    else r == ParseError
  }

  lemma BareHead(v: Any)
    requires WellFormed(v)
    ensures SerializeBare(v) != [] && !AtComment(SerializeBare(v))
    ensures AtSymbol(SerializeBare(v)) ==> !IsClose(SerializeBare(v)[0].text[0])
    ensures Trim(v.comment) == v.comment
  {
  }

  lemma HeadStays(a: seq<Token>, b: seq<Token>)
    requires a != []
    ensures a + b != [] && (a + b)[0] == a[0] && Next(a + b) == a[1..] + b
  {
  }

  /** A value with its comment. */
  lemma {:induction false} WithItsComment(v: Any, rest: seq<Token>)
    requires WellFormed(v) && Outcome(v, rest, DeserializeBare(SerializeBare(v) + rest))
    ensures var r := Deserialize(Serialize(v) + rest);
      if Readable(v) then r == Ok((v, rest))
      else if BadName(v) then
        r.Ok? && !r.value.0.Table? && !r.value.0.Array? && AtSymbol(r.value.1) && IsOpen(r.value.1[0].text[0])
      else r == ParseError
  {
    hide WellFormed, SerializeBare, DeserializeBare, CommentTokens, Readable, BadName, Trim, DeserializeComment;
    var t := SerializeBare(v) + rest;
    BareHead(v);
    HeadStays(SerializeBare(v), rest);
    CommentReadsBack(v.comment, t);
    assert Serialize(v) + rest == CommentTokens(v.comment) + t;
  }

  // ----- Other notations: any separators, either pair of brackets, keys in any order -----

  /** Commas or semicolons between n elements, and possibly one after the last. */
  predicate Marks(marks: seq<Token>, n: nat) {
    && |marks| <= n <= |marks| + 1
    && forall k :: 0 <= k < |marks| ==> marks[k] == SymbolToken(",") || marks[k] == SymbolToken(";")
  }

  function FirstMark(marks: seq<Token>): seq<Token> {
    if marks == [] then [] else [marks[0]]
  }

  function OtherMarks(marks: seq<Token>): seq<Token> {
    if marks == [] then [] else marks[1..]
  }

  function Commas(n: nat): (marks: seq<Token>)
    ensures Marks(marks, n)
  {
    if n == 0 then [] else seq(n - 1, _ => SymbolToken(","))
  }

  lemma CommasSplit(n: nat)
    requires n > 0
    ensures FirstMark(Commas(n)) == (if n > 1 then [SymbolToken(",")] else []) && OtherMarks(Commas(n)) == Commas(n - 1)
  {
  }

  /** Parsing the print of v without its comment has the outcome it should have. */
  ghost predicate ReadsBack(v: Any) {
    forall rest :: Outcome(v, rest, DeserializeBare(SerializeBare(v) + rest))
  }

  /** The tokens after an element: a separator or the closing bracket. */
  lemma AfterElement(marks: seq<Token>, n: nat, close: string, tail: seq<Token>)
    requires Marks(marks, n) && n > 0 && (close == ")" || close == "]" || close == "}")
    requires n == 1 ==> tail != [] && tail[0] == SymbolToken(close)
    ensures ReadUntilCommaOrClose(FirstMark(marks) + tail) == Ok(FirstMark(marks) + tail)
    ensures (if IsSeparator(FirstChar(FirstMark(marks) + tail)) then Next(FirstMark(marks) + tail)
             else FirstMark(marks) + tail) == tail
  {
    if marks == [] {
      assert FirstMark(marks) + tail == tail;
    }
  }

  /** After a bad element there is neither a separator nor a closing bracket. */
  lemma AfterBadElement(s: seq<Token>)
    requires AtSymbol(s) && IsOpen(s[0].text[0])
    ensures ReadUntilCommaOrClose(s) == ParseError
  {
  }

  lemma Regroup(a: seq<Token>, b: seq<Token>, c: seq<Token>, d: seq<Token>, e: seq<Token>, f: seq<Token>)
    ensures a + b + c + d + e + f == a + (b + (c + (d + e + f)))
  {
  }

  // ----- Elements -----

  function WrittenElements(elements: seq<Any>, marks: seq<Token>): seq<Token>
    requires Marks(marks, |elements|)
  {
    if elements == [] then []
    else Serialize(elements[0]) + FirstMark(marks) + WrittenElements(elements[1..], OtherMarks(marks))
  }

  /** The printed form is one of those notations. */
  lemma {:induction false} PrintedElements(elements: seq<Any>)
    ensures SerializeElements(elements) == WrittenElements(elements, Commas(|elements|))
  {
    hide Serialize, Commas;
    if elements != [] {
      CommasSplit(|elements|);
      PrintedElements(elements[1..]);
    }
  }

  function ElementTail(elements: seq<Any>, marks: seq<Token>, close: string, rest: seq<Token>): seq<Token>
    requires elements != [] && Marks(marks, |elements|)
  {
    WrittenElements(elements[1..], OtherMarks(marks)) + [SymbolToken(close)] + rest
  }

  lemma ElementsSplit(elements: seq<Any>, marks: seq<Token>, close: string, rest: seq<Token>)
    requires elements != [] && Marks(marks, |elements|)
    ensures var tail := ElementTail(elements, marks, close, rest);
      && WrittenElements(elements, marks) + [SymbolToken(close)] + rest
        == CommentTokens(elements[0].comment) + (SerializeBare(elements[0]) + (FirstMark(marks) + tail))
      && (|elements| == 1 ==> tail != [] && tail[0] == SymbolToken(close))
  {
    hide SerializeBare, CommentTokens;
    var v := elements[0];
    assert Serialize(v) == CommentTokens(v.comment) + SerializeBare(v);
    Regroup(CommentTokens(v.comment), SerializeBare(v), FirstMark(marks),
            WrittenElements(elements[1..], OtherMarks(marks)), [SymbolToken(close)], rest);
    if |elements| == 1 {
      assert WrittenElements(elements[1..], OtherMarks(marks)) == [];
    }
  }

  /** One element of an array. */
  lemma ElementStep(elements: seq<Any>, marks: seq<Token>, close: string, done: seq<Any>, rest: seq<Token>)
    requires elements != [] && Marks(marks, |elements|) && (close == ")" || close == "]")
    requires WellFormed(elements[0]) && ReadsBack(elements[0])
    ensures var tail := ElementTail(elements, marks, close, rest);
      var r := DeserializeElements(WrittenElements(elements, marks) + [SymbolToken(close)] + rest, close[0], done);
      if Readable(elements[0]) then r == DeserializeElements(tail, close[0], done + [elements[0]]) else r == ParseError
  {
    hide WellFormed, SerializeBare, DeserializeBare, CommentTokens, Readable, BadName, Trim, DeserializeComment,
      DeserializeElements, WrittenElements, ElementTail, FirstMark, ReadUntilCommaOrClose, Marks;
    var v := elements[0];
    var tail := ElementTail(elements, marks, close, rest);
    var x := FirstMark(marks) + tail;
    var t := SerializeBare(v) + x;
    assert Outcome(v, x, DeserializeBare(SerializeBare(v) + x));
    ElementsSplit(elements, marks, close, rest);
    BareHead(v);
    HeadStays(SerializeBare(v), x);
    CommentReadsBack(v.comment, t);
    NoComment(t);
    AfterElement(marks, |elements|, close, tail);
    CommentOrBare(v.comment, t, close[0]);
    if !Readable(v) && BadName(v) {
      AfterBadElement(DeserializeBare(t).value.1);
    }
    ElementRead(CommentTokens(v.comment) + t, t, v, close[0], done);
  }

  lemma CommentOrBare(comment: string, t: seq<Token>, close: char)
    requires !Closes(t, close)
    ensures !Closes(CommentTokens(comment) + t, close)
  {
    assert [] + t == t;
  }

  /** The reading of one element, once it is known where its comment ends. */
  lemma ElementRead(s: seq<Token>, t: seq<Token>, v: Any, close: char, done: seq<Any>)
    requires !Closes(s, close) && !Closes(t, close) && DeserializeComment(s) == (v.comment, t)
    requires DeserializeComment(t) == ("", t) && (v.comment != "" ==> Trim(v.comment + "\n") == v.comment)
    ensures DeserializeBare(t) == ParseError ==> DeserializeElements(s, close, done) == ParseError
    ensures DeserializeBare(t).Ok? ==>
      var (w, u) := DeserializeBare(t).value;
      && (ReadUntilCommaOrClose(u) == ParseError ==> DeserializeElements(s, close, done) == ParseError)
      && (ReadUntilCommaOrClose(u) == Ok(u) && w == Bare(v) ==>
        DeserializeElements(s, close, done)
          == DeserializeElements(if IsSeparator(FirstChar(u)) then Next(u) else u, close, done + [v]))
  {
    if DeserializeBare(t).Ok? {
      var (w, u) := DeserializeBare(t).value;
      assert Deserialize(t) == Ok((WithComment(w, ""), u)) == Ok((w, u));
      if w == Bare(v) {
        assert v.comment + "\n" + "" == v.comment + "\n";
        assert Prepended(w, v.comment) == v;
      }
    }
  }

  lemma NoElements(close: string, done: seq<Any>, rest: seq<Token>)
    requires close == ")" || close == "]"
    ensures DeserializeElements(WrittenElements([], []) + [SymbolToken(close)] + rest, close[0], done) == Ok((done, rest))
  {
    var s := WrittenElements([], []) + [SymbolToken(close)] + rest;
    assert s[0] == SymbolToken(close) && Next(s) == rest;
  }

  predicate AllReadable(elements: seq<Any>) {
    forall e :: e in elements ==> Readable(e)
  }

  lemma AllReadableSplits(elements: seq<Any>)
    requires elements != []
    ensures AllReadable(elements) <==> Readable(elements[0]) && AllReadable(elements[1..])
  {
    assert forall e :: e in elements <==> e == elements[0] || e in elements[1..];
  }

  /** The elements of an array come back, in either brackets, with any separators and also one before
      the closing bracket. */
  lemma {:induction false} ElementsReadBack(
    elements: seq<Any>, marks: seq<Token>, close: string, done: seq<Any>, rest: seq<Token>)
    requires Marks(marks, |elements|) && (close == ")" || close == "]")
    requires forall e :: e in elements ==> WellFormed(e) && ReadsBack(e)
    ensures DeserializeElements(WrittenElements(elements, marks) + [SymbolToken(close)] + rest, close[0], done)
      == if AllReadable(elements) then Ok((done + elements, rest)) else ParseError
    decreases |elements|
  {
    hide WellFormed, Readable, AllReadable, DeserializeElements, WrittenElements, ReadsBack, OtherMarks;
    if elements == [] {
      NoElements(close, done, rest);
      assert done + elements == done;
      assert AllReadable(elements) by { NoneUnreadable(); }
    } else {
      ElementStep(elements, marks, close, done, rest);
      assert Marks(OtherMarks(marks), |elements| - 1) by { MarksSplit(marks, |elements|); }
      ElementsReadBack(elements[1..], OtherMarks(marks), close, done + [elements[0]], rest);
      AllReadableSplits(elements);
      assert done + [elements[0]] + elements[1..] == done + elements;
    }
  }

  lemma MarksSplit(marks: seq<Token>, n: nat)
    requires Marks(marks, n) && n > 0
    ensures Marks(OtherMarks(marks), n - 1)
  {
  }

  lemma NoneUnreadable()
    ensures AllReadable([]) && ItemsReadable([])
  {
  }

  // ----- Keys -----

  lemma {:induction false} LessIsStrict(a: string, b: string)
    requires Less(a, b)
    ensures a != b && !Less(b, a)
    decreases |a|
  {
    if a != "" && a[0] == b[0] {
      LessIsStrict(a[1..], b[1..]);
    }
  }

  lemma {:induction false} LessIsTotal(a: string, b: string)
    ensures a == b || Less(a, b) || Less(b, a)
    decreases |a|
  {
    if a != "" && b != "" && a[0] == b[0] {
      LessIsTotal(a[1..], b[1..]);
      assert a == [a[0]] + a[1..] && b == [b[0]] + b[1..];
    }
  }

  lemma {:induction false} LessIsTransitive(a: string, b: string, c: string)
    requires Less(a, b) && Less(b, c)
    ensures Less(a, c)
    decreases |a|
  {
    if a != "" && a[0] == b[0] == c[0] {
      LessIsTransitive(a[1..], b[1..], c[1..]);
    }
  }

  /** Entries in strict order of their keys. */
  predicate Ordered(entries: seq<Entry>) {
    forall i, j :: 0 <= i < j < |entries| ==> Less(entries[i].key, entries[j].key)
  }

  /** What a table holds. */
  function Contents(entries: seq<Entry>): map<string, Any> {
    if entries == [] then map[] else Contents(entries[1..])[entries[0].key := entries[0].value]
  }

  predicate After(key: string, entries: seq<Entry>) {
    forall i :: 0 <= i < |entries| ==> Less(key, entries[i].key)
  }

  lemma OrderedFirst(entries: seq<Entry>)
    requires Ordered(entries) && entries != []
    ensures Ordered(entries[1..]) && After(entries[0].key, entries[1..])
  {
  }

  lemma FirstOrdered(e: Entry, entries: seq<Entry>)
    requires Ordered(entries) && After(e.key, entries)
    ensures Ordered([e] + entries) && Contents([e] + entries) == Contents(entries)[e.key := e.value]
  {
    assert ([e] + entries)[1..] == entries;
  }

  lemma {:induction false} AfterAll(key: string, entries: seq<Entry>)
    requires After(key, entries)
    ensures key !in Contents(entries)
  {
    if entries != [] {
      LessIsStrict(key, entries[0].key);
      AfterAll(key, entries[1..]);
    }
  }

  lemma AfterFirst(key: string, entries: seq<Entry>)
    requires Ordered(entries) && entries != [] && Less(key, entries[0].key)
    ensures After(key, entries)
  {
    hide Less;
    forall i | 0 <= i < |entries| ensures Less(key, entries[i].key) {
      if i > 0 {
        LessIsTransitive(key, entries[0].key, entries[i].key);
      }
    }
  }

  /** Setting a key keeps the order, gives the key its value and changes no other. */
  lemma {:induction false} SetEntrySets(entries: seq<Entry>, e: Entry)
    requires Ordered(entries)
    ensures Ordered(SetEntry(entries, e)) && Contents(SetEntry(entries, e)) == Contents(entries)[e.key := e.value]
    ensures forall key :: Less(key, e.key) && After(key, entries) ==> After(key, SetEntry(entries, e))
  {
    hide Less, Ordered;
    if entries == [] {
      FirstOrdered(e, []);
      assert [e] + [] == [e];
    } else {
      OrderedFirst(entries);
      if entries[0].key == e.key {
        FirstOrdered(e, entries[1..]);
      } else if Less(e.key, entries[0].key) {
        AfterFirst(e.key, entries);
        FirstOrdered(e, entries);
      } else {
        LessIsTotal(e.key, entries[0].key);
        SetEntrySets(entries[1..], e);
        FirstOrdered(entries[0], SetEntry(entries[1..], e));
      }
    }
  }

  lemma HoldsNothing(entries: seq<Entry>)
    ensures Contents(entries) == map[] <==> entries == []
  {
    if entries != [] {
      assert entries[0].key in Contents(entries);
    }
  }

  /** A table in order is determined by what it holds. */
  lemma {:induction false} OrderedIsOnly(a: seq<Entry>, b: seq<Entry>)
    requires Ordered(a) && Ordered(b) && Contents(a) == Contents(b)
    ensures a == b
  {
    hide Less, Ordered;
    HoldsNothing(a);
    HoldsNothing(b);
    if a != [] {
      OrderedFirst(a);
      OrderedFirst(b);
      if a[0].key != b[0].key {
        LessIsTotal(a[0].key, b[0].key);
        if Less(a[0].key, b[0].key) {
          AfterFirst(a[0].key, b);
          AfterAll(a[0].key, b);
        } else {
          AfterFirst(b[0].key, a);
          AfterAll(b[0].key, a);
        }
        assert false;
      }
      AfterAll(a[0].key, a[1..]);
      AfterAll(a[0].key, b[1..]);
      assert Contents(a[1..]) == Contents(a) - {a[0].key};
      assert Contents(b[1..]) == Contents(b) - {a[0].key};
      OrderedIsOnly(a[1..], b[1..]);
      assert Contents(a)[a[0].key] == a[0].value && Contents(b)[b[0].key] == b[0].value;
      assert a == [a[0]] + a[1..] && b == [b[0]] + b[1..];
    }
  }

  // ----- Entries -----

  /** An entry as it is written: with a comment before its key, which may be quoted. */
  datatype Item = Item(lead: string, quoted: bool, key: string, value: Any)

  predicate ItemWellFormed(i: Item) {
    Trim(i.lead) == i.lead && (i.quoted || IsIdentifier(i.key)) && WellFormed(i.value)
  }

  function KeyToken(i: Item): Token {
    if i.quoted then StringToken(i.key) else SymbolToken(i.key)
  }

  /** The value meant, to which both comments belong, on lines of their own. */
  function Meant(i: Item): Any {
    i.value.(comment := if i.lead == "" then i.value.comment
      else if i.value.comment == "" then i.lead
      else i.lead + "\n" + i.value.comment)
  }

  function WrittenEntries(items: seq<Item>, marks: seq<Token>): seq<Token>
    requires Marks(marks, |items|)
  {
    if items == [] then []
    else
      CommentTokens(items[0].lead) + [KeyToken(items[0]), SymbolToken("=")] + Serialize(items[0].value)
      + FirstMark(marks) + WrittenEntries(items[1..], OtherMarks(marks))
  }

  /** Each key with the value that is written for it last. */
  function LastValues(items: seq<Item>): map<string, Any> {
    if items == [] then map[]
    else
      var i := items[|items| - 1];
      LastValues(items[..|items| - 1])[i.key := Meant(i)]
  }

  lemma {:induction false} LastValuesFromFirst(items: seq<Item>)
    requires items != []
    ensures LastValues(items) == map[items[0].key := Meant(items[0])] + LastValues(items[1..])
    decreases |items|
  {
    if |items| > 1 {
      LastValuesFromFirst(items[..|items| - 1]);
      assert items[..|items| - 1][1..] == items[1..][..|items[1..]| - 1];
    } else {
      assert items[..|items| - 1] == [] && items[1..] == [];
    }
  }

  function EntryTail(items: seq<Item>, marks: seq<Token>, rest: seq<Token>): seq<Token>
    requires items != [] && Marks(marks, |items|)
  {
    WrittenEntries(items[1..], OtherMarks(marks)) + [SymbolToken("}")] + rest
  }

  lemma EntriesSplit(items: seq<Item>, marks: seq<Token>, rest: seq<Token>)
    requires items != [] && Marks(marks, |items|)
    ensures var tail := EntryTail(items, marks, rest);
      && WrittenEntries(items, marks) + [SymbolToken("}")] + rest
        == CommentTokens(items[0].lead)
           + ([KeyToken(items[0]), SymbolToken("=")] + (Serialize(items[0].value) + (FirstMark(marks) + tail)))
      && (|items| == 1 ==> tail != [] && tail[0] == SymbolToken("}"))
  {
    hide Serialize, CommentTokens;
    var i := items[0];
    var lead, key := CommentTokens(i.lead), [KeyToken(i), SymbolToken("=")];
    Regroup(lead + key, Serialize(i.value), FirstMark(marks),
            WrittenEntries(items[1..], OtherMarks(marks)), [SymbolToken("}")], rest);
    Associate(lead, key, Serialize(i.value) + (FirstMark(marks) + EntryTail(items, marks, rest)));
    if |items| == 1 {
      assert WrittenEntries(items[1..], OtherMarks(marks)) == [];
    }
  }

  lemma Associate(a: seq<Token>, b: seq<Token>, c: seq<Token>)
    ensures a + b + c == a + (b + c)
  {
  }

  /** A comment before the key goes in front of the value's own. */
  lemma CommentsJoin(lead: string, comment: string)
    requires Trim(lead) == lead && Trim(comment) == comment
    ensures lead != "" ==> Trim(lead + "\n" + comment) == if comment == "" then lead else lead + "\n" + comment
  {
    if lead != "" {
      TrimmedEnds(lead);
      if comment == "" {
        TrimPadded("", lead, "\n");
        assert "" + lead + "\n" == lead + "\n" + comment;
      } else {
        TrimmedEnds(comment);
      }
    }
  }

  /** One entry of a table. */
  lemma EntryStep(items: seq<Item>, marks: seq<Token>, done: seq<Entry>, rest: seq<Token>)
    requires items != [] && Marks(marks, |items|) && ItemWellFormed(items[0]) && ReadsBack(items[0].value)
    ensures var r := DeserializeEntries(WrittenEntries(items, marks) + [SymbolToken("}")] + rest, done);
      if Readable(items[0].value) then
        r == DeserializeEntries(EntryTail(items, marks, rest), SetEntry(done, Entry(items[0].key, Meant(items[0]))))
      else r == ParseError
  {
    hide WellFormed, Serialize, SerializeBare, Deserialize, DeserializeBare, Readable, BadName, DeserializeEntries,
      WrittenEntries, EntryTail, FirstMark, ReadUntilCommaOrClose, SetEntry, DeserializeComment, Outcome, Marks,
      CommentTokens, Trim, Meant;
    var i := items[0];
    var tail := EntryTail(items, marks, rest);
    var x := FirstMark(marks) + tail;
    var t := Serialize(i.value) + x;
    EntriesSplit(items, marks, rest);
    var k := [KeyToken(i), SymbolToken("=")] + t;
    var s := CommentTokens(i.lead) + k;
    assert k[0] == KeyToken(i) && Next(k) == [SymbolToken("=")] + t && Next(Next(k)) == t;
    CommentReadsBack(i.lead, k);
    CommentOrBare(i.lead, k, '}');
    assert Outcome(i.value, x, DeserializeBare(SerializeBare(i.value) + x));
    WithItsComment(i.value, x);
    AfterElement(marks, |items|, "}", tail);
    if !Readable(i.value) && BadName(i.value) {
      AfterBadElement(Deserialize(t).value.1);
    }
    EntryRead(s, k, t, i, done);
  }

  /** The reading of one entry, once it is known where its key is. */
  lemma EntryRead(s: seq<Token>, k: seq<Token>, t: seq<Token>, i: Item, done: seq<Entry>)
    requires !Closes(s, '}') && !Closes(k, '}') && DeserializeComment(s) == (i.lead, k) && ItemWellFormed(i)
    requires k == [KeyToken(i), SymbolToken("=")] + t
    requires SkipComments(Next(k)) == Next(k) && Next(Next(k)) == t
    ensures Deserialize(t) == ParseError ==> DeserializeEntries(s, done) == ParseError
    ensures Deserialize(t).Ok? ==>
      var (w, u) := Deserialize(t).value;
      && (ReadUntilCommaOrClose(u) == ParseError ==> DeserializeEntries(s, done) == ParseError)
      && (ReadUntilCommaOrClose(u) == Ok(u) && w == i.value ==>
        DeserializeEntries(s, done)
          == DeserializeEntries(if IsSeparator(FirstChar(u)) then Next(u) else u, SetEntry(done, Entry(i.key, Meant(i)))))
  {
    hide Trim, WellFormed, SetEntry;
    assert Trim(i.value.comment) == i.value.comment by { BareHead(i.value); }
    CommentsJoin(i.lead, i.value.comment);
    assert Prepended(i.value, i.lead) == Meant(i);
  }

  lemma NoEntries(done: seq<Entry>, rest: seq<Token>)
    ensures DeserializeEntries(WrittenEntries([], []) + [SymbolToken("}")] + rest, done) == Ok((done, rest))
  {
    var s := WrittenEntries([], []) + [SymbolToken("}")] + rest;
    assert s[0] == SymbolToken("}") && Next(s) == rest;
  }

  predicate ItemsReadable(items: seq<Item>) {
    forall i :: i in items ==> Readable(i.value)
  }

  lemma ItemsReadableSplit(items: seq<Item>)
    requires items != []
    ensures ItemsReadable(items) <==> Readable(items[0].value) && ItemsReadable(items[1..])
  {
    assert forall i :: i in items <==> i == items[0] || i in items[1..];
  }

  /** Entries written in any order, with any separators, give the table in key order in which every key
      has the value written for it last. */
  lemma {:induction false} EntriesReadBack(items: seq<Item>, marks: seq<Token>, done: seq<Entry>, rest: seq<Token>)
    requires Marks(marks, |items|) && Ordered(done)
    requires forall i :: i in items ==> ItemWellFormed(i) && ReadsBack(i.value)
    ensures var r := DeserializeEntries(WrittenEntries(items, marks) + [SymbolToken("}")] + rest, done);
      if ItemsReadable(items) then
        && r.Ok? && r.value.1 == rest && Ordered(r.value.0)
        && Contents(r.value.0) == Contents(done) + LastValues(items)
      else r == ParseError
    decreases |items|
  {
    hide ItemWellFormed, Readable, ItemsReadable, DeserializeEntries, WrittenEntries, ReadsBack, OtherMarks, Ordered,
      Contents, SetEntry, LastValues, Meant;
    if items == [] {
      NoEntries(done, rest);
      assert LastValues([]) == map[] by { NoValues(); }
      assert ItemsReadable(items) by { NoneUnreadable(); }
    } else {
      var e := Entry(items[0].key, Meant(items[0]));
      EntryStep(items, marks, done, rest);
      SetEntrySets(done, e);
      MarksSplit(marks, |items|);
      EntriesReadBack(items[1..], OtherMarks(marks), SetEntry(done, e), rest);
      ItemsReadableSplit(items);
      LastValuesFromFirst(items);
    }
  }

  lemma NoValues()
    ensures LastValues([]) == map[]
  {
  }

  // ----- The printed form -----

  function Plain(entries: seq<Entry>): (items: seq<Item>)
    ensures |items| == |entries|
    ensures forall k :: 0 <= k < |items| ==> items[k] == Item("", false, entries[k].key, entries[k].value)
  {
    seq(|entries|, k requires 0 <= k < |entries| => Item("", false, entries[k].key, entries[k].value))
  }

  lemma PlainSplits(entries: seq<Entry>)
    requires entries != []
    ensures Plain(entries)[1..] == Plain(entries[1..])
  {
  }

  lemma {:induction false} PrintedEntries(entries: seq<Entry>)
    ensures SerializeEntries(entries) == WrittenEntries(Plain(entries), Commas(|entries|))
  {
    hide Serialize, Commas;
    if entries != [] {
      CommasSplit(|entries|);
      PlainSplits(entries);
      PrintedEntries(entries[1..]);
      assert CommentTokens("") + [SymbolToken(entries[0].key), SymbolToken("=")]
        == [SymbolToken(entries[0].key), SymbolToken("=")];
    }
  }

  lemma {:induction false} PlainValues(entries: seq<Entry>)
    requires Ordered(entries)
    ensures LastValues(Plain(entries)) == Contents(entries)
  {
    hide Less, Ordered;
    if entries != [] {
      var items := Plain(entries);
      OrderedFirst(entries);
      AfterAll(entries[0].key, entries[1..]);
      PlainSplits(entries);
      PlainValues(entries[1..]);
      LastValuesFromFirst(items);
      assert Meant(items[0]) == entries[0].value;
      assert map[entries[0].key := entries[0].value] + Contents(entries[1..])
          == Contents(entries[1..])[entries[0].key := entries[0].value];
    } else {
      NoValues();
    }
  }

  predicate EntriesReadable(entries: seq<Entry>) {
    forall e :: e in entries ==> Readable(e.value)
  }

  lemma PlainReadable(entries: seq<Entry>)
    ensures ItemsReadable(Plain(entries)) <==> EntriesReadable(entries)
  {
    forall e | e in entries ensures exists i :: i in Plain(entries) && i.value == e.value {
      var k :| 0 <= k < |entries| && entries[k] == e;
      assert Plain(entries)[k] in Plain(entries);
    }
  }

  /** A printed table has its entries in order, and they come back. */
  lemma PrintedEntriesReadBack(entries: seq<Entry>, rest: seq<Token>)
    requires Ordered(entries)
    requires forall e :: e in entries ==> IsIdentifier(e.key) && WellFormed(e.value) && ReadsBack(e.value)
    ensures DeserializeEntries(SerializeEntries(entries) + [SymbolToken("}")] + rest, [])
      == if EntriesReadable(entries) then Ok((entries, rest)) else ParseError
  {
    hide ReadsBack, WellFormed, IsIdentifier, Ordered, Readable, EntriesReadable, ItemsReadable, Contents, LastValues,
      DeserializeEntries, Plain, Commas;
    var items := Plain(entries);
    PrintedEntries(entries);
    assert Trim("") == "";
    PlainReadable(entries);
    PlainValues(entries);
    assert Ordered([]) && Contents([]) == map[] by { NoContents(); }
    EntriesReadBack(items, Commas(|entries|), [], rest);
    if ItemsReadable(items) {
      var r := DeserializeEntries(SerializeEntries(entries) + [SymbolToken("}")] + rest, []);
      OrderedIsOnly(r.value.0, entries);
    }
  }

  lemma NoContents()
    ensures Ordered([]) && Contents([]) == map[]
  {
  }

  lemma NameReadsBack(name: string, open: string, t: seq<Token>)
    requires IsName(name) && (open == "(" || open == "[" || open == "{")
    ensures DeserializeName(ArrayName(name) + ([SymbolToken(open)] + t), "") == Ok((name, [SymbolToken(open)] + t))
  {
    if name == "" {
      assert ArrayName(name) + ([SymbolToken(open)] + t) == [SymbolToken(open)] + t;
    } else {
      var s := ArrayName(name) + ([SymbolToken(open)] + t);
      assert Next(s) == [SymbolToken(open)] + t && "" + name == name;
      assert DeserializeName(s, "") == DeserializeName([SymbolToken(open)] + t, name);
    }
  }

  /** A named or unnamed container: its brackets lead to its body, unless the name spells "none". */
  lemma ContainerReads(name: string, open: string, t: seq<Token>)
    requires IsName(name) && (open == "(" || open == "[" || open == "{")
    ensures var s := ArrayName(name) + ([SymbolToken(open)] + t);
      DeserializeBare(s) == if IsNone(name) then Ok((None(""), [SymbolToken(open)] + t))
        else DeserializeBody([SymbolToken(open)] + t, name)
  {
    NameReadsBack(name, open, t);
    var s := ArrayName(name) + ([SymbolToken(open)] + t);
    if name == "" {
      assert s[0].text == open && |ToUpper(open)| == 1;
    } else {
      assert s[0] == SymbolToken(name) && s[1..] == [SymbolToken(open)] + t;
    }
  }

  lemma TableReadsBack(v: Any, rest: seq<Token>)
    requires WellFormed(v) && v.Table?
    requires DeserializeEntries(SerializeEntries(v.entries) + [SymbolToken("}")] + rest, [])
      == if EntriesReadable(v.entries) then Ok((v.entries, rest)) else ParseError
    ensures Outcome(v, rest, DeserializeBare(SerializeBare(v) + rest))
  {
    hide SerializeEntries, DeserializeEntries, DeserializeBare, NeedsQuotes, IsIdentifier, Trim, Less, ToUpper;
    var t := SerializeEntries(v.entries) + [SymbolToken("}")] + rest;
    var s := TableName(v.name) + ([SymbolToken("{")] + t);
    assert SerializeBare(v) + rest == s;
    assert ([SymbolToken("{")] + t)[1..] == t;
    if v.name != "" {
      QuotesIff(v.name);
    }
    if v.name != "" && NeedsQuotes(v.name) {
      assert s[0] == StringToken(v.name) && s[1..] == [SymbolToken("{")] + t;
      StringReads(s);
    } else {
      ContainerReads(v.name, "{", t);
    }
  }

  lemma StringReads(s: seq<Token>)
    requires s != [] && s[0].StringToken?
    ensures DeserializeBare(s) == Ok((Text("", s[0].text), s[1..]))
  {
  }

  lemma ArrayReadsBack(v: Any, rest: seq<Token>)
    requires WellFormed(v) && v.Array?
    requires DeserializeElements(SerializeElements(v.elements) + [SymbolToken(")")] + rest, ')', [])
      == if AllReadable(v.elements) then Ok(([] + v.elements, rest)) else ParseError
    ensures Outcome(v, rest, DeserializeBare(SerializeBare(v) + rest))
  {
    hide SerializeElements, DeserializeElements, DeserializeBare;
    var t := SerializeElements(v.elements) + [SymbolToken(")")] + rest;
    assert SerializeBare(v) + rest == ArrayName(v.name) + ([SymbolToken("(")] + t);
    assert ([SymbolToken("(")] + t)[1..] == t;
    assert [] + v.elements == v.elements;
    ContainerReads(v.name, "(", t);
  }

  lemma SimpleReadsBack(v: Any, rest: seq<Token>)
    requires !v.Table? && !v.Array?
    ensures Outcome(v, rest, DeserializeBare(SerializeBare(v) + rest))
  {
    HeadStays(SerializeBare(v), rest);
    assert (SerializeBare(v) + rest)[1..] == rest;
  }

  lemma {:induction false} BareReadsBack(v: Any, rest: seq<Token>)
    requires WellFormed(v)
    ensures Outcome(v, rest, DeserializeBare(SerializeBare(v) + rest))
    decreases v, 1
  {
    match v
    case Table(_, name, entries) =>
      forall e | e in entries ensures ReadsBack(e.value) {
        AlwaysReadsBack(e.value);
      }
      PrintedEntriesReadBack(entries, rest);
      TableReadsBack(v, rest);
    case Array(_, name, elements) =>
      forall e | e in elements ensures ReadsBack(e) {
        AlwaysReadsBack(e);
      }
      PrintedElements(elements);
      ElementsReadBack(elements, Commas(|elements|), ")", [], rest);
      ArrayReadsBack(v, rest);
    case _ =>
      SimpleReadsBack(v, rest);
  }

  lemma {:induction false} AlwaysReadsBack(v: Any)
    requires WellFormed(v)
    ensures ReadsBack(v)
    decreases v, 2
  {
    forall rest ensures Outcome(v, rest, DeserializeBare(SerializeBare(v) + rest)) {
      BareReadsBack(v, rest);
    }
  }

  /** A printed value reads back as itself, leaving the tokens after it, exactly when no table in it has
      a name with an underscore and no name in it spells "none". */
  lemma RoundTripIff(v: Any, rest: seq<Token>)
    requires WellFormed(v)
    ensures Deserialize(Serialize(v) + rest) == Ok((v, rest)) <==> Readable(v)
  {
    BareReadsBack(v, rest);
    WithItsComment(v, rest);
  }

  /** An array in any notation is the array that was meant. */
  lemma ArrayInAnyNotation(
    name: string, elements: seq<Any>, marks: seq<Token>, open: string, close: string, rest: seq<Token>)
    requires IsName(name) && !IsNone(name) && Marks(marks, |elements|)
    requires (open == "(" && close == ")") || (open == "[" && close == "]")
    requires forall e :: e in elements ==> WellFormed(e) && Readable(e)
    ensures DeserializeBare(
      ArrayName(name) + ([SymbolToken(open)] + (WrittenElements(elements, marks) + [SymbolToken(close)] + rest)))
      == Ok((Array("", name, elements), rest))
  {
    hide WrittenElements, DeserializeElements, DeserializeBare, WellFormed, Readable, ReadsBack, Marks, IsNone;
    var t := WrittenElements(elements, marks) + [SymbolToken(close)] + rest;
    forall e | e in elements ensures ReadsBack(e) {
      AlwaysReadsBack(e);
    }
    ElementsReadBack(elements, marks, close, [], rest);
    assert ([SymbolToken(open)] + t)[1..] == t && [] + elements == elements;
    ContainerReads(name, open, t);
  }

  /** A table in any notation has, in key order, each key with the last value written for it. */
  lemma TableInAnyNotation(name: string, items: seq<Item>, marks: seq<Token>, rest: seq<Token>) returns (entries: seq<Entry>)
    requires IsName(name) && !IsNone(name) && Marks(marks, |items|)
    requires forall i :: i in items ==> ItemWellFormed(i) && Readable(i.value)
    ensures DeserializeBare(
      ArrayName(name) + ([SymbolToken("{")] + (WrittenEntries(items, marks) + [SymbolToken("}")] + rest)))
      == Ok((Table("", name, entries), rest))
    ensures Ordered(entries) && Contents(entries) == LastValues(items)
  {
    hide WrittenEntries, DeserializeEntries, DeserializeBare, WellFormed, Readable, ReadsBack, Marks, IsNone, Trim,
      IsIdentifier, Ordered, Contents, LastValues;
    var t := WrittenEntries(items, marks) + [SymbolToken("}")] + rest;
    forall i | i in items ensures ReadsBack(i.value) {
      AlwaysReadsBack(i.value);
    }
    NoContents();
    EntriesReadBack(items, marks, [], rest);
    entries := DeserializeEntries(t, []).value.0;
    assert map[] + LastValues(items) == LastValues(items);
    assert ([SymbolToken("{")] + t)[1..] == t;
    ContainerReads(name, "{", t);
  }

  /** The exceptions occur: an empty table called a_b does not read back, nor does an empty array called none. */
  lemma UnderscoreDoesNotReadBack(rest: seq<Token>)
    ensures var t := Table("", "a_b", []); WellFormed(t) && Deserialize(Serialize(t) + rest) != Ok((t, rest))
  {
    hide Deserialize, Serialize;
    var t := Table("", "a_b", []);
    assert t.name[1] == '_';
    RoundTripIff(t, rest);
  }

  lemma NoneDoesNotReadBack(rest: seq<Token>)
    ensures var a := Array("", "none", []); WellFormed(a) && Deserialize(Serialize(a) + rest) != Ok((a, rest))
  {
    hide Deserialize, Serialize;
    var a := Array("", "none", []);
    assert ToUpper("none") == "NONE" by {
      assert ToUpper("none")[0] == 'N' && ToUpper("none")[1] == 'O' && ToUpper("none")[2] == 'N' && ToUpper("none")[3] == 'E';
    }
    RoundTripIff(a, rest);
  }
}
