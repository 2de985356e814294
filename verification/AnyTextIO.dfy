/** Any values read from a stream of tokens and written to one, token by token. */
module AnyTextIO {
  import opened AnyText

  /** The token a reader is looking at. */
  datatype Current = End | At(token: Token)

  class TextInput {
    var tokens: seq<Token>

    constructor (ts: seq<Token>)
      ensures tokens == ts
    {
      tokens := ts;
    }

    method Read() returns (t: Current)
      modifies this
      ensures if old(tokens) == [] then t == End && tokens == []
        else t == At(old(tokens)[0]) && tokens == old(tokens)[1..]
    {
      if tokens == [] {
        return End;
      }
      t := At(tokens[0]);
      tokens := tokens[1..];
    }

    /** The current token and those after it. */
    function Ahead(t: Current): seq<Token>
      reads this
    {
      if t.End? then [] else [t.token] + tokens
    }

    ghost predicate Valid(t: Current)
      reads this
    {
      t.End? ==> tokens == []
    }

    method Advance(ghost t: Current) returns (n: Current)
      requires Valid(t)
      modifies this
      ensures Valid(n) && Ahead(n) == Next(old(Ahead(t)))
    {
      n := Read();
      assert t.At? ==> ([t.token] + old(tokens))[1..] == old(tokens);
    }

    /** The next token that is no comment. */
    method ReadSignificant(ghost t: Current) returns (n: Current)
      requires Valid(t)
      modifies this
      ensures Valid(n) && Ahead(n) == SkipComments(Next(old(Ahead(t))))
    {
      n := Advance(t);
      while n.At? && n.token.CommentToken?
        invariant Valid(n) && SkipComments(Ahead(n)) == SkipComments(Next(old(Ahead(t))))
        decreases |Ahead(n)|
      {
        assert Next(Ahead(n)) == Ahead(n)[1..];
        n := Advance(n);
      }
    }

    /** All comments from here on, joined and trimmed. */
    method ReadComment(t: Current) returns (comment: string, n: Current)
      requires Valid(t)
      modifies this
      ensures Valid(n) && (comment, Ahead(n)) == DeserializeComment(old(Ahead(t)))
    {
      n, comment := t, "";
      while n.At? && n.token.CommentToken?
        invariant Valid(n) && CollectComment(Ahead(n), comment) == CollectComment(old(Ahead(t)), "")
        decreases |Ahead(n)|
      {
        comment := comment + Trim(n.token.text) + "\n";
        n := Advance(n);
        comment := comment + "\n";
      }
      comment := Trim(comment);
    }

    method ReadName(t: Current) returns (r: Result<string>, n: Current)
      requires Valid(t) && AtSymbol(Ahead(t))
      modifies this
      ensures Valid(n)
      ensures match DeserializeName(old(Ahead(t)), "")
        case ParseError => r == ParseError
        case Ok((name, s)) => r == Ok(name) && Ahead(n) == s
    {
      n := t;
      var name := "";
      while !IsOpen(n.token.text[0])
        invariant Valid(n) && AtSymbol(Ahead(n))
        invariant DeserializeName(Ahead(n), name) == DeserializeName(old(Ahead(t)), "")
        decreases |Ahead(n)|
      {
        name := name + n.token.text;
        n := ReadSignificant(n);
        if !(n.At? && n.token.SymbolToken? && n.token.text != "") {
          return ParseError, n;
        }
      }
      r := Ok(name);
    }

    /** Up to a separator or a closing bracket, over comments only. */
    method ReadUntilSeparator(t: Current) returns (r: Result<()>, n: Current)
      requires Valid(t)
      modifies this
      ensures Valid(n)
      ensures match ReadUntilCommaOrClose(old(Ahead(t)))
        case ParseError => r == ParseError
        case Ok(s) => r == Ok(()) && Ahead(n) == s
    {
      n := t;
      while !((AtSymbol(Ahead(n)) && IsClose(n.token.text[0])) || IsSeparator(FirstChar(Ahead(n))))
        invariant Valid(n) && ReadUntilCommaOrClose(Ahead(n)) == ReadUntilCommaOrClose(old(Ahead(t)))
        decreases |Ahead(n)|
      {
        if !(n.At? && n.token.CommentToken?) {
          return ParseError, n;
        }
        n := Advance(n);
      }
      r := Ok(());
    }

    /** A value with its comments, and the token after it. */
    method ReadAny(t: Current) returns (r: Result<Any>, n: Current)
      requires Valid(t)
      modifies this
      ensures Valid(n)
      ensures match Deserialize(old(Ahead(t)))
        case ParseError => r == ParseError
        case Ok((v, s)) => r == Ok(v) && Ahead(n) == s
      decreases |Ahead(t)|, 2
    {
      var comment;
      comment, n := ReadComment(t);
      r, n := ReadBare(n);
      if r.Ok? {
        r := Ok(WithComment(r.value, comment));
      }
    }

    method ReadBare(t: Current) returns (r: Result<Any>, n: Current)
      requires Valid(t)
      modifies this
      ensures Valid(n)
      ensures match DeserializeBare(old(Ahead(t)))
        case ParseError => r == ParseError
        case Ok((v, s)) => r == Ok(v) && Ahead(n) == s
      decreases |Ahead(t)|, 1
    {
      if t.End? {
        return ParseError, t;
      }
      match t.token
      case StringToken(text) =>
        n := Advance(t);
        r := Ok(Text("", text));
      case NumberToken(x) =>
        n := Advance(t);
        r := Ok(Number("", x));
      case BooleanToken(b) =>
        n := Advance(t);
        r := Ok(Boolean("", b));
      case CommentToken(_) =>
        return ParseError, t;
      case SymbolToken(text) =>
        if text == "" || text == "#" {
          return ParseError, t;
        }
        if ToUpper(text) == "NONE" {
          n := Advance(t);
          r := Ok(None(""));
        } else {
          var name;
          name, n := ReadName(t);
          if name.ParseError? {
            return ParseError, n;
          }
          r, n := ReadBody(n, name.value);
        }
    }

    method ReadBody(t: Current, name: string) returns (r: Result<Any>, n: Current)
      requires Valid(t) && AtSymbol(Ahead(t)) && IsOpen(Ahead(t)[0].text[0])
      modifies this
      ensures Valid(n)
      ensures match DeserializeBody(old(Ahead(t)), name)
        case ParseError => r == ParseError
        case Ok((v, s)) => r == Ok(v) && Ahead(n) == s
      decreases |Ahead(t)|, 0
    {
      var c := t.token.text[0];
      n := Advance(t);
      if c == '{' {
        var entries;
        entries, n := ReadEntries(n);
        r := if entries.Ok? then Ok(Table("", name, entries.value)) else ParseError;
      } else {
        var elements;
        elements, n := ReadElements(n, if c == '(' then ')' else ']');
        r := if elements.Ok? then Ok(Array("", name, elements.value)) else ParseError;
      }
    }

    method ReadElements(t: Current, close: char) returns (r: Result<seq<Any>>, n: Current)
      requires Valid(t)
      modifies this
      ensures Valid(n)
      ensures match DeserializeElements(old(Ahead(t)), close, [])
        case ParseError => r == ParseError
        case Ok((v, s)) => r == Ok(v) && Ahead(n) == s
      decreases |Ahead(t)|, 3
    {
      n := t;
      var done: seq<Any> := [];
      while !Closes(Ahead(n), close)
        invariant Valid(n) && |Ahead(n)| <= |old(Ahead(t))|
        invariant DeserializeElements(Ahead(n), close, done) == DeserializeElements(old(Ahead(t)), close, [])
        decreases |Ahead(n)|
      {
        var comment;
        comment, n := ReadComment(n);
        if Closes(Ahead(n), close) {
          break;
        }
        var v;
        v, n := ReadAny(n);
        if v.ParseError? {
          return ParseError, n;
        }
        var ok;
        ok, n := ReadUntilSeparator(n);
        if ok.ParseError? {
          return ParseError, n;
        }
        if IsSeparator(FirstChar(Ahead(n))) {
          n := Advance(n);
        }
        done := done + [Prepended(v.value, comment)];
      }
      n := Advance(n);
      r := Ok(done);
    }

    /** A key and the equals sign after it. */
    method ReadKey(t: Current) returns (r: Result<string>, n: Current)
      requires Valid(t)
      modifies this
      ensures Valid(n)
      ensures match KeyAhead(old(Ahead(t)))
        case ParseError => r == ParseError
        case Ok((key, s)) => r == Ok(key) && Ahead(n) == s
    {
      n := t;
      if n.End? || !(n.token.SymbolToken? || n.token.StringToken?) {
        return ParseError, n;
      }
      var key := n.token.text;
      n := ReadSignificant(n);
      if !(n.At? && n.token == SymbolToken("=")) {
        return ParseError, n;
      }
      n := Advance(n);
      r := Ok(key);
    }

    method ReadEntries(t: Current) returns (r: Result<seq<Entry>>, n: Current)
      requires Valid(t)
      modifies this
      ensures Valid(n)
      ensures match DeserializeEntries(old(Ahead(t)), [])
        case ParseError => r == ParseError
        case Ok((v, s)) => r == Ok(v) && Ahead(n) == s
      decreases |Ahead(t)|, 3
    {
      hide Deserialize, SetEntry, CollectComment, ReadUntilCommaOrClose;
      n := t;
      var done: seq<Entry> := [];
      while !Closes(Ahead(n), '}')
        invariant Valid(n) && |Ahead(n)| <= |old(Ahead(t))|
        invariant DeserializeEntries(Ahead(n), done) == DeserializeEntries(old(Ahead(t)), [])
        decreases |Ahead(n)|
      {
        var comment;
        comment, n := ReadComment(n);
        if Closes(Ahead(n), '}') {
          break;
        }
        var key;
        key, n := ReadKey(n);
        if key.ParseError? {
          return ParseError, n;
        }
        var v;
        v, n := ReadAny(n);
        if v.ParseError? {
          return ParseError, n;
        }
        var ok;
        ok, n := ReadUntilSeparator(n);
        if ok.ParseError? {
          return ParseError, n;
        }
        if IsSeparator(FirstChar(Ahead(n))) {
          n := Advance(n);
        }
        done := SetEntry(done, Entry(key.value, Prepended(v.value, comment)));
      }
      n := Advance(n);
      r := Ok(done);
    }
  }

  function KeyAhead(s: seq<Token>): (r: Result<(string, seq<Token>)>)
    ensures r.Ok? ==> |r.value.1| < |s|
  {
    if s == [] || !(s[0].SymbolToken? || s[0].StringToken?) then ParseError
    else
      var q := SkipComments(Next(s));
      if !(AtSymbol(q) && q[0].text == "=") then ParseError else Ok((s[0].text, Next(q)))
  }

  lemma EntriesStep(entries: seq<Entry>, i: nat)
    requires i < |entries|
    ensures SerializeEntries(entries[i..])
      == [SymbolToken(entries[i].key), SymbolToken("=")] + Serialize(entries[i].value)
         + (if i < |entries| - 1 then [SymbolToken(",")] else []) + SerializeEntries(entries[i + 1..])
  {
    assert entries[i..][0] == entries[i] && entries[i..][1..] == entries[i + 1..];
  }

  lemma ElementsStep(elements: seq<Any>, i: nat)
    requires i < |elements|
    ensures SerializeElements(elements[i..])
      == Serialize(elements[i]) + (if i < |elements| - 1 then [SymbolToken(",")] else [])
         + SerializeElements(elements[i + 1..])
  {
    assert elements[i..][0] == elements[i] && elements[i..][1..] == elements[i + 1..];
  }

  class TextOutput {
    var tokens: seq<Token>

    constructor ()
      ensures tokens == []
    {
      tokens := [];
    }

    method Write(t: Token)
      modifies this
      ensures tokens == old(tokens) + [t]
    {
      tokens := tokens + [t];
    }

    method WriteAny(v: Any)
      modifies this
      ensures tokens == old(tokens) + Serialize(v)
      decreases v, 3
    {
      hide SerializeBare;
      if v.comment != "" {
        Write(CommentToken(" " + v.comment + " "));
      }
      WriteBare(v);
    }

    method WriteBare(v: Any)
      modifies this
      ensures tokens == old(tokens) + SerializeBare(v)
      decreases v, 2
    {
      match v
      case None(_) => Write(SymbolToken("NONE"));
      case Boolean(_, b) => Write(BooleanToken(b));
      case Number(_, x) => Write(NumberToken(x));
      case Text(_, s) => Write(StringToken(s));
      case Table(_, name, entries) => WriteTable(v, name, entries);
      case Array(_, name, elements) => WriteArray(v, name, elements);
    }

    method WriteTable(ghost v: Any, name: string, entries: seq<Entry>)
      requires v.Table? && v.entries == entries
      modifies this
      ensures tokens == old(tokens) + (TableName(name) + [SymbolToken("{")] + SerializeEntries(entries) + [SymbolToken("}")])
      decreases v, 1
    {
      hide SerializeEntries, NeedsQuotes;
      if name != "" {
        Write(if NeedsQuotes(name) then StringToken(name) else SymbolToken(name));
      }
      Write(SymbolToken("{"));
      WriteEntries(v, entries);
      Write(SymbolToken("}"));
    }

    method WriteArray(ghost v: Any, name: string, elements: seq<Any>)
      requires v.Array? && v.elements == elements
      modifies this
      ensures tokens == old(tokens) + (ArrayName(name) + [SymbolToken("(")] + SerializeElements(elements) + [SymbolToken(")")])
      decreases v, 1
    {
      hide SerializeElements;
      if name != "" {
        Write(SymbolToken(name));
      }
      Write(SymbolToken("("));
      WriteElements(v, elements);
      Write(SymbolToken(")"));
    }

    method WriteEntries(ghost v: Any, entries: seq<Entry>)
      requires v.Table? && v.entries == entries
      modifies this
      ensures tokens == old(tokens) + SerializeEntries(entries)
      decreases v, 0
    {
      hide Serialize, SerializeEntries;
      var i := 0;
      assert entries[0..] == entries;
      while i < |entries|
        invariant 0 <= i <= |entries|
        invariant tokens + SerializeEntries(entries[i..]) == old(tokens) + SerializeEntries(entries)
      {
        EntriesStep(entries, i);
        Write(SymbolToken(entries[i].key));
        Write(SymbolToken("="));
        WriteAny(entries[i].value);
        if i < |entries| - 1 {
          Write(SymbolToken(","));
        }
        i := i + 1;
      }
      assert entries[i..] == [];
      NothingLeft();
    }

    method WriteElements(ghost v: Any, elements: seq<Any>)
      requires v.Array? && v.elements == elements
      modifies this
      ensures tokens == old(tokens) + SerializeElements(elements)
      decreases v, 0
    {
      hide Serialize, SerializeElements;
      var i := 0;
      assert elements[0..] == elements;
      while i < |elements|
        invariant 0 <= i <= |elements|
        invariant tokens + SerializeElements(elements[i..]) == old(tokens) + SerializeElements(elements)
      {
        ElementsStep(elements, i);
        WriteAny(elements[i]);
        if i < |elements| - 1 {
          Write(SymbolToken(","));
        }
        i := i + 1;
      }
      assert elements[i..] == [];
      NothingLeft();
    }
  }

  lemma NothingLeft()
    ensures SerializeEntries([]) == [] && SerializeElements([]) == []
  {
  }

  /** Printing a value and parsing the print gives the value back exactly when its names are readable. */
  method PrintAndParse(v: Any) returns (r: Result<Any>)
    requires WellFormed(v)
    ensures Readable(v) ==> r == Ok(v)
    ensures r == Ok(v) ==> Readable(v)
  {
    hide WellFormed, Readable, Serialize, Deserialize;
    var out := new TextOutput();
    out.WriteAny(v);
    var inp := new TextInput(out.tokens);
    var t := inp.Read();
    assert inp.Ahead(t) == Serialize(v) + [];
    RoundTripIff(v, []);
    r, t := inp.ReadAny(t);
    if !Readable(v) {
      WrongPartIsWrong(v);
      assert Serialize(v) + [] == Serialize(v);
    }
  }

  /** A value that does not read back is not what its print parses to, tokens left over or not. */
  lemma WrongPartIsWrong(v: Any)
    requires WellFormed(v) && !Readable(v)
    ensures match Deserialize(Serialize(v)) case ParseError => true case Ok((w, _)) => w != v
  {
    BareReadsBack(v, []);
    WithItsComment(v, []);
    assert Serialize(v) + [] == Serialize(v);
  }
}
