/** The parts of the textual form of TFG operations: types, operand lists and attributes, with their printers
    and parsers. Printing functions take what follows and put their own tokens in front of it. */
module TfgParts {
  import opened Wrappers
  import opened TfgTokens

  type Parsed<T> = Option<(T, Tokens)>

  predicate Starts(s: Tokens, t: Token) {
    s.Then? && s.first == t
  }

  function Expect(s: Tokens, t: Token): (r: Option<Tokens>)
    ensures r.Some? ==> s == Then(t, r.value)
  {
    if Starts(s, t) then Some(s.rest) else None
  }

  // ---- Types ----

  function PrintType(t: Type, rest: Tokens): Tokens
    decreases t, 1
  {
    match t
    case Func(inputs, results) =>
      Then(LParen, PrintTypes(inputs, Then(RParen, Then(Arrow, Then(LParen, PrintTypes(results, Then(RParen, rest)))))))
    case _ => Then(Prim(t), rest)
  }

  function PrintTypes(ts: seq<Type>, rest: Tokens): Tokens
    decreases ts, 0
  {
    if ts == [] then rest
    else PrintType(ts[0], if |ts| == 1 then rest else Then(Comma, PrintTypes(ts[1..], rest)))
  }

  function ParseType(s: Tokens): (r: Parsed<Type>)
    ensures r.Some? ==> r.value.1 < s
    decreases s, 0
  {
    if s.End? then None
    else if s.first.Prim? then if s.first.ty.Func? then None else Some((s.first.ty, s.rest))
    else if s.first != LParen then None
    else
      var (inputs, r1) :- ParseParenTypes(s.rest);
      var r2 :- Expect(r1, Arrow);
      var r3 :- Expect(r2, LParen);
      var (results, r4) :- ParseParenTypes(r3);
      Some((Func(inputs, results), r4))
  }

  /** A list of types up to the closing parenthesis. */
  function ParseParenTypes(s: Tokens): (r: Parsed<seq<Type>>)
    ensures r.Some? ==> r.value.1 < s
    decreases s, 2
  {
    if Starts(s, RParen) then Some(([], s.rest))
    else
      var (ts, r1) :- ParseTypes(s);
      var r2 :- Expect(r1, RParen);
      Some((ts, r2))
  }

  function ParseTypes(s: Tokens): (r: Parsed<seq<Type>>)
    ensures r.Some? ==> r.value.1 < s
    decreases s, 1
  {
    var (t, r1) :- ParseType(s);
    if Starts(r1, Comma) then
      var (ts, r2) :- ParseTypes(r1.rest);
      Some(([t] + ts, r2))
    else Some(([t], r1))
  }

  lemma {:induction false} TypeRoundTrip(t: Type, rest: Tokens)
    ensures ParseType(PrintType(t, rest)) == Some((t, rest))
    decreases t, 1
  {
    if t.Func? {
      var tail := PrintTypes(t.results, Then(RParen, rest));
      ParenRoundTrip(t.inputs, Then(Arrow, Then(LParen, tail)));
      ParenRoundTrip(t.results, rest);
    }
  }

  lemma {:induction false} ParenRoundTrip(ts: seq<Type>, rest: Tokens)
    ensures ParseParenTypes(PrintTypes(ts, Then(RParen, rest))) == Some((ts, rest))
    decreases ts, 2
  {
    if ts != [] {
      TypesRoundTrip(ts, Then(RParen, rest));
    }
  }

  lemma {:induction false} TypesRoundTrip(ts: seq<Type>, rest: Tokens)
    requires ts != [] && !Starts(rest, Comma)
    ensures ParseTypes(PrintTypes(ts, rest)) == Some((ts, rest)) && !Starts(PrintTypes(ts, rest), RParen)
    decreases ts, 1
  {
    if |ts| == 1 {
      TypeRoundTrip(ts[0], rest);
      assert [ts[0]] == ts;
    } else {
      TypeRoundTrip(ts[0], Then(Comma, PrintTypes(ts[1..], rest)));
      TypesRoundTrip(ts[1..], rest);
      assert [ts[0]] + ts[1..] == ts;
    }
  }

  /** `parseOptionalColonTypeList`. */
  function ParseColonTypes(s: Tokens): Parsed<seq<Type>> {
    if Starts(s, Colon) then ParseTypes(s.rest) else Some(([], s))
  }

  lemma {:induction false} TypePrinted(t: Type, rest: Tokens)
    ensures PrintType(t, rest) == Put(TypeText(t), rest)
    decreases t, 1
  {
    if t.Func? {
      TypesPrinted(t.results, Then(RParen, rest));
      TypesPrinted(t.inputs, Then(RParen, Then(Arrow, Then(LParen, PrintTypes(t.results, Then(RParen, rest))))));
      FuncPut(TypesText(t.inputs), TypesText(t.results), rest);
    }
  }

  lemma {:induction false} TypesPrinted(ts: seq<Type>, rest: Tokens)
    ensures PrintTypes(ts, rest) == Put(TypesText(ts), rest)
    decreases ts, 0
  {
    if |ts| == 1 {
      TypePrinted(ts[0], rest);
    } else if |ts| > 1 {
      TypesPrinted(ts[1..], rest);
      TypePrinted(ts[0], Then(Comma, PrintTypes(ts[1..], rest)));
      CommaPut(TypeText(ts[0]), TypesText(ts[1..]), rest);
    }
  }

  lemma CommaPut(a: seq<Token>, b: seq<Token>, rest: Tokens)
    ensures Put(a + [Comma] + b, rest) == Put(a, Then(Comma, Put(b, rest)))
  {
    PutPut(a + [Comma], b, rest);
    PutPut(a, [Comma], Put(b, rest));
    PutOne(Comma, Put(b, rest));
  }

  lemma PutOne(t: Token, rest: Tokens)
    ensures Put([t], rest) == Then(t, rest)
  {
    assert [t][1..] == [];
  }

  lemma FuncPut(a: seq<Token>, b: seq<Token>, rest: Tokens)
    ensures Put([LParen] + a + [RParen, Arrow, LParen] + b + [RParen], rest)
            == Then(LParen, Put(a, Then(RParen, Then(Arrow, Then(LParen, Put(b, Then(RParen, rest)))))))
  {
    var tail := Put(b, Then(RParen, rest));
    PutPut([LParen] + a + [RParen, Arrow, LParen] + b, [RParen], rest);
    PutPut([LParen] + a + [RParen, Arrow, LParen], b, Then(RParen, rest));
    PutPut([LParen] + a, [RParen, Arrow, LParen], tail);
    PutPut([LParen], a, Put([RParen, Arrow, LParen], tail));
    PutOne(RParen, rest);
    PutOne(LParen, Put(a, Put([RParen, Arrow, LParen], tail)));
    PutThree(RParen, Arrow, LParen, tail);
  }

  lemma PutThree(t: Token, u: Token, v: Token, rest: Tokens)
    ensures Put([t, u, v], rest) == Then(t, Then(u, Then(v, rest)))
  {
    assert [t, u, v][1..] == [u, v] && [u, v][1..] == [v];
    PutOne(v, rest);
  }

  /** What is read as types is their text. */
  lemma {:induction false} TypeSound(s: Tokens)
    ensures ParseType(s).Some? ==> s == Put(TypeText(ParseType(s).value.0), ParseType(s).value.1)
    decreases s, 0
  {
    if ParseType(s).Some? {
      if s.first.Prim? {
        PutOne(s.first, s.rest);
      } else {
        var (inputs, r1) := ParseParenTypes(s.rest).value;
        ParenSound(s.rest);
        var (results, r4) := ParseParenTypes(r1.rest.rest).value;
        ParenSound(r1.rest.rest);
        FuncPut(TypesText(inputs), TypesText(results), r4);
      }
    }
  }

  lemma {:induction false} ParenSound(s: Tokens)
    ensures ParseParenTypes(s).Some? ==>
              s == Put(TypesText(ParseParenTypes(s).value.0), Then(RParen, ParseParenTypes(s).value.1))
    decreases s, 2
  {
    if ParseParenTypes(s).Some? && !Starts(s, RParen) {
      TypesSound(s);
    }
  }

  lemma {:induction false} TypesSound(s: Tokens)
    ensures ParseTypes(s).Some? ==>
              ParseTypes(s).value.0 != [] && s == Put(TypesText(ParseTypes(s).value.0), ParseTypes(s).value.1)
    decreases s, 1
  {
    if ParseTypes(s).Some? {
      TypeSound(s);
      var (t, r1) := ParseType(s).value;
      if Starts(r1, Comma) {
        TypesSound(r1.rest);
        var (ts, r2) := ParseTypes(r1.rest).value;
        assert ([t] + ts)[1..] == ts;
        CommaPut(TypeText(t), TypesText(ts), r2);
      }
    }
  }

  /** No types, or a colon and their text. */
  predicate TypesRead(s: Tokens, types: seq<Type>, rest: Tokens) {
    if types == [] then s == rest && !Starts(s, Colon) else s == Put([Colon] + TypesText(types), rest)
  }

  lemma ColonTypesSound(s: Tokens)
    ensures ParseColonTypes(s).Some? ==> TypesRead(s, ParseColonTypes(s).value.0, ParseColonTypes(s).value.1)
  {
    if Starts(s, Colon) && ParseTypes(s.rest).Some? {
      TypesSound(s.rest);
      var (ts, r) := ParseTypes(s.rest).value;
      PutPut([Colon], TypesText(ts), r);
      PutOne(Colon, Put(TypesText(ts), r));
    }
  }

  // ---- Operand lists ----

  function PrintNames(ops: seq<Operand>, rest: Tokens): Tokens {
    if ops == [] then rest
    else Then(Percent(ops[0].name), if |ops| == 1 then rest else Then(Comma, PrintNames(ops[1..], rest)))
  }

  /** A delimited operand list, or nothing for no operands. */
  function PrintOperands(ops: seq<Operand>, open: Token, close: Token, rest: Tokens): Tokens {
    if ops == [] then rest else Then(open, PrintNames(ops, Then(close, rest)))
  }

  function ParseNames(s: Tokens): Parsed<seq<nat>> {
    if s.End? || !s.first.Percent? then None
    else if Starts(s.rest, Comma) then
      var (names, r1) :- ParseNames(s.rest.rest);
      Some(([s.first.name] + names, r1))
    else Some(([s.first.name], s.rest))
  }

  /** `parseOperandList` with an optional delimiter: absent, empty, or a list. */
  function ParseOperands(s: Tokens, open: Token, close: Token): Parsed<seq<nat>> {
    if !Starts(s, open) then Some(([], s))
    else if Starts(s.rest, close) then Some(([], s.rest.rest))
    else
      var (names, r1) :- ParseNames(s.rest);
      var r2 :- Expect(r1, close);
      Some((names, r2))
  }

  lemma {:induction false} NamesRoundTrip(ops: seq<Operand>, rest: Tokens)
    requires ops != [] && !Starts(rest, Comma)
    ensures ParseNames(PrintNames(ops, rest)) == Some((Names(ops), rest))
  {
    if |ops| == 1 {
      assert [ops[0].name] == Names(ops);
    } else {
      NamesRoundTrip(ops[1..], rest);
      assert [ops[0].name] + Names(ops[1..]) == Names(ops);
    }
  }

  lemma OperandsRoundTrip(ops: seq<Operand>, open: Token, close: Token, rest: Tokens)
    requires !Starts(rest, open) && close != Comma && !close.Percent?
    ensures ParseOperands(PrintOperands(ops, open, close, rest), open, close) == Some((Names(ops), rest))
  {
    if ops == [] {
      assert Names(ops) == [];
    } else {
      NamesRoundTrip(ops, Then(close, rest));
    }
  }

  lemma {:induction false} NamesPrinted(ops: seq<Operand>, rest: Tokens)
    ensures PrintNames(ops, rest) == Put(NamesText(Names(ops)), rest)
  {
    if |ops| == 1 {
      PutOne(Percent(ops[0].name), rest);
    } else if |ops| > 1 {
      NamesPrinted(ops[1..], rest);
      assert Names(ops)[1..] == Names(ops[1..]);
      NamesPut(Names(ops), rest);
    }
  }

  lemma NamesPut(names: seq<nat>, rest: Tokens)
    requires |names| > 1
    ensures Put(NamesText(names), rest) == Then(Percent(names[0]), Then(Comma, Put(NamesText(names[1..]), rest)))
  {
    PutPut([Percent(names[0]), Comma], NamesText(names[1..]), rest);
    assert [Percent(names[0]), Comma][1..] == [Comma];
    PutOne(Comma, Put(NamesText(names[1..]), rest));
  }

  lemma BracketsPut(open: Token, text: seq<Token>, close: Token, rest: Tokens)
    ensures Put([open] + text + [close], rest) == Then(open, Put(text, Then(close, rest)))
  {
    PutPut([open] + text, [close], rest);
    PutPut([open], text, Put([close], rest));
    PutOne(close, rest);
    PutOne(open, Put(text, Then(close, rest)));
  }

  lemma OperandsPrinted(ops: seq<Operand>, open: Token, close: Token, rest: Tokens)
    ensures PrintOperands(ops, open, close, rest) == Put(OperandsText(Names(ops), open, close), rest)
  {
    if ops != [] {
      NamesPrinted(ops, Then(close, rest));
      BracketsPut(open, NamesText(Names(ops)), close, rest);
    }
  }

  lemma {:induction false} NamesSound(s: Tokens)
    ensures ParseNames(s).Some? ==>
              ParseNames(s).value.0 != [] && s == Put(NamesText(ParseNames(s).value.0), ParseNames(s).value.1)
  {
    if ParseNames(s).Some? {
      if Starts(s.rest, Comma) {
        NamesSound(s.rest.rest);
        var (names, r) := ParseNames(s.rest.rest).value;
        assert ([s.first.name] + names)[1..] == names;
        NamesPut([s.first.name] + names, r);
      } else {
        PutOne(s.first, s.rest);
      }
    }
  }

  /** No list, empty brackets, or names in brackets. */
  predicate OperandsRead(s: Tokens, open: Token, close: Token, names: seq<nat>, rest: Tokens) {
    if names == [] then (s == rest && !Starts(s, open)) || s == Then(open, Then(close, rest))
    else s == Put(OperandsText(names, open, close), rest)
  }

  lemma OperandsSound(s: Tokens, open: Token, close: Token)
    ensures ParseOperands(s, open, close).Some? ==>
              OperandsRead(s, open, close, ParseOperands(s, open, close).value.0, ParseOperands(s, open, close).value.1)
  {
    if ParseOperands(s, open, close).Some? && Starts(s, open) && !Starts(s.rest, close) {
      NamesSound(s.rest);
      var (names, r1) := ParseNames(s.rest).value;
      BracketsPut(open, NamesText(names), close, r1.rest);
    }
  }

  // ---- Keyword attributes ----

  const KEYWORDS: seq<Keyword> := [Device, AssignedDevice, Name]

  function PrintKeywords(keywords: map<Keyword, string>, order: seq<Keyword>, rest: Tokens): Tokens {
    if order == [] then rest
    else
      var tail := PrintKeywords(keywords, order[1..], rest);
      if order[0] in keywords then Then(Word(order[0]),
          Then(LParen, Then(Quoted(keywords[order[0]]), Then(RParen, tail))))
      else tail
  }

  function PrintDict(dict: seq<Attr>, rest: Tokens): Tokens {
    if dict == [] then rest else Then(Dict(dict), rest)
  }

  function PrintAttrs(attrs: Attrs, rest: Tokens): Tokens {
    PrintKeywords(attrs.keywords, KEYWORDS, PrintDict(attrs.dict, rest))
  }

  /** One optional keyword attribute. */
  function ParseKeyword(s: Tokens, k: Keyword, acc: map<Keyword, string>): Parsed<map<Keyword, string>> {
    if !Starts(s, Word(k)) then Some((acc, s))
    else
      var r1 :- Expect(s.rest, LParen);
      if r1.End? || !r1.first.Quoted? then None
      else
        var r2 :- Expect(r1.rest, RParen);
        Some((acc[k := r1.first.text], r2))
  }

  function ParseKeywords(s: Tokens, order: seq<Keyword>, acc: map<Keyword, string>): Parsed<map<Keyword, string>> {
    if order == [] then Some((acc, s))
    else
      var (acc', r) :- ParseKeyword(s, order[0], acc);
      ParseKeywords(r, order[1..], acc')
  }

  function ParseDict(s: Tokens): (seq<Attr>, Tokens) {
    if s.Then? && s.first.Dict? then (s.first.entries, s.rest) else ([], s)
  }

  function ParseAttrs(s: Tokens): Parsed<Attrs> {
    var (keywords, r1) :- ParseKeywords(s, KEYWORDS, map[]);
    var (dict, r2) := ParseDict(r1);
    Some((Attrs(keywords, dict), r2))
  }

  predicate NoWord(s: Tokens) {
    s.Then? ==> !s.first.Word?
  }

  function Only(keywords: map<Keyword, string>, order: seq<Keyword>): map<Keyword, string> {
    map k | k in keywords && k in order :: keywords[k]
  }

  lemma OnlyStep(keywords: map<Keyword, string>, order: seq<Keyword>, acc: map<Keyword, string>)
    requires order != [] && forall i, j :: 0 <= i < j < |order| ==> order[i] != order[j]
    ensures order[0] !in order[1..]
    ensures (if order[0] in keywords then acc[order[0] := keywords[order[0]]] else acc) + Only(keywords, order[1..])
            == acc + Only(keywords, order)
  {
    assert forall k :: k in order <==> k == order[0] || k in order[1..];
    var left :=
        (if order[0] in keywords then acc[order[0] := keywords[order[0]]] else acc) + Only(keywords, order[1..]);
    var right := acc + Only(keywords, order);
    assert left.Keys == right.Keys;
    forall k | k in left ensures left[k] == right[k] {
    }
  }

  lemma KeywordStep(keywords: map<Keyword, string>, order: seq<Keyword>, acc: map<Keyword, string>, rest: Tokens)
    requires order != [] && !Starts(PrintKeywords(keywords, order[1..], rest), Word(order[0]))
    ensures ParseKeyword(PrintKeywords(keywords, order, rest), order[0], acc)
            == Some((if order[0] in keywords then acc[order[0] := keywords[order[0]]] else acc,
                     PrintKeywords(keywords, order[1..], rest)))
  {
  }

  lemma {:induction false} KeywordsRoundTrip(keywords: map<Keyword, string>, order: seq<Keyword>, acc: map<Keyword,
                                             string>, rest: Tokens)
    requires NoWord(rest) && forall i, j :: 0 <= i < j < |order| ==> order[i] != order[j]
    ensures ParseKeywords(PrintKeywords(keywords, order, rest), order, acc) == Some((acc + Only(keywords, order), rest))
  {
    if order == [] {
      assert acc + Only(keywords, order) == acc;
    } else {
      var k, more := order[0], order[1..];
      var acc' := if k in keywords then acc[k := keywords[k]] else acc;
      OnlyStep(keywords, order, acc);
      TailWord(keywords, more, rest, k);
      KeywordStep(keywords, order, acc, rest);
      KeywordsRoundTrip(keywords, more, acc', rest);
    }
  }

  /** The first keyword in the text is one still to come. */
  lemma {:induction false} TailWord(keywords: map<Keyword, string>, order: seq<Keyword>, rest: Tokens, k: Keyword)
    requires NoWord(rest) && k !in order
    ensures !Starts(PrintKeywords(keywords, order, rest), Word(k))
  {
    if order != [] && order[0] !in keywords {
      assert order == [order[0]] + order[1..];
      TailWord(keywords, order[1..], rest, k);
    }
  }

  lemma AttrsRoundTrip(attrs: Attrs, rest: Tokens)
    requires NoWord(rest) && (rest.Then? ==> !rest.first.Dict?)
    ensures ParseAttrs(PrintAttrs(attrs, rest)) == Some((attrs, rest))
  {
    KeywordsRoundTrip(attrs.keywords, KEYWORDS, map[], PrintDict(attrs.dict, rest));
    AllKeywords(attrs.keywords);
  }

  lemma AllKeywords(keywords: map<Keyword, string>)
    ensures map[] + Only(keywords, KEYWORDS) == keywords
  {
    assert KEYWORDS[0] == Device && KEYWORDS[1] == AssignedDevice && KEYWORDS[2] == Name;
    forall k: Keyword ensures k in KEYWORDS {
      match k
      case Device => assert KEYWORDS[0] == k;
      case AssignedDevice => assert KEYWORDS[1] == k;
      case Name => assert KEYWORDS[2] == k;
    }
  }

  lemma KeywordPut(keywords: map<Keyword, string>, order: seq<Keyword>, rest: Tokens)
    requires order != []
    ensures PrintKeywords(keywords, order, rest)
            == Put(KeywordText(keywords, order[0]), PrintKeywords(keywords, order[1..], rest))
  {
    var tail := PrintKeywords(keywords, order[1..], rest);
    if order[0] in keywords {
      WordPut(order[0], keywords[order[0]], tail);
    }
  }

  lemma WordPut(k: Keyword, text: string, rest: Tokens)
    ensures Put([Word(k), LParen, Quoted(text), RParen], rest)
            == Then(Word(k), Then(LParen, Then(Quoted(text), Then(RParen, rest))))
  {
    assert [Word(k), LParen, Quoted(text), RParen] == [Word(k)] + [LParen, Quoted(text), RParen];
    PutPut([Word(k)], [LParen, Quoted(text), RParen], rest);
    PutThree(LParen, Quoted(text), RParen, rest);
    PutOne(Word(k), Put([LParen, Quoted(text), RParen], rest));
  }

  lemma DictPut(dict: seq<Attr>, rest: Tokens)
    ensures PrintDict(dict, rest) == Put(DictText(dict), rest)
  {
    PutOne(Dict(dict), rest);
  }

  lemma KeywordOrder()
    ensures KEYWORDS[0] == Device && KEYWORDS[1..][0] == AssignedDevice && KEYWORDS[1..][1..][0] == Name
    ensures KEYWORDS[1..] != [] && KEYWORDS[1..][1..] != [] && KEYWORDS[1..][1..][1..] == []
  {
  }

  lemma KeywordsTextPut(keywords: map<Keyword, string>, rest: Tokens)
    ensures Put(KeywordsText(keywords), rest)
            == Put(KeywordText(keywords, Device),
                   Put(KeywordText(keywords, AssignedDevice), Put(KeywordText(keywords, Name), rest)))
  {
    var d, a, n := KeywordText(keywords, Device), KeywordText(keywords, AssignedDevice), KeywordText(keywords, Name);
    PutPut(d + a, n, rest);
    PutPut(d, a, Put(n, rest));
  }

  /** Device, assigned device, name, dictionary. */
  lemma AttrsPrinted(attrs: Attrs, rest: Tokens)
    ensures PrintAttrs(attrs, rest) == Put(AttrsText(attrs), rest)
  {
    var tail := PrintDict(attrs.dict, rest);
    KeywordOrder();
    KeywordPut(attrs.keywords, KEYWORDS, tail);
    KeywordPut(attrs.keywords, KEYWORDS[1..], tail);
    KeywordPut(attrs.keywords, KEYWORDS[1..][1..], tail);
    KeywordsTextPut(attrs.keywords, tail);
    DictPut(attrs.dict, rest);
    PutPut(KeywordsText(attrs.keywords), DictText(attrs.dict), rest);
  }

  /** The text of the attributes, where the dictionary may also be an empty one. */
  predicate AttrsRead(s: Tokens, attrs: Attrs, rest: Tokens) {
    || s == Put(AttrsText(attrs), rest)
    || (attrs.dict == [] && s == Put(KeywordsText(attrs.keywords), Then(Dict([]), rest)))
  }

  lemma KeywordSound(s: Tokens, k: Keyword, acc: map<Keyword, string>)
    requires k !in acc
    ensures var p := ParseKeyword(s, k, acc);
            p.Some? ==>
              && s == Put(KeywordText(p.value.0, k), p.value.1)
              && p.value.0.Keys - {k} == acc.Keys
              && forall j :: j != k ==> KeywordText(p.value.0, j) == KeywordText(acc, j)
  {
    var p := ParseKeyword(s, k, acc);
    if p.Some? && Starts(s, Word(k)) {
      WordPut(k, p.value.0[k], p.value.1);
    }
  }

  lemma KeywordsStep(s: Tokens, order: seq<Keyword>, acc: map<Keyword, string>)
    requires order != []
    ensures var p := ParseKeyword(s, order[0], acc);
            ParseKeywords(s, order, acc) == if p.None? then None else ParseKeywords(p.value.1, order[1..], p.value.0)
  {
  }

  /** Keywords in any order of distinct ones: what is read is what would be printed. */
  lemma {:induction false} OrderSound(s: Tokens, order: seq<Keyword>, acc: map<Keyword, string>)
    requires forall i, j :: 0 <= i < j < |order| ==> order[i] != order[j]
    requires forall k :: k in order ==> k !in acc
    ensures var p := ParseKeywords(s, order, acc);
            p.Some? ==>
              && s == PrintKeywords(p.value.0, order, p.value.1)
              && forall k :: k !in order ==> KeywordText(p.value.0, k) == KeywordText(acc, k)
  {
    if order != [] && ParseKeywords(s, order, acc).Some? {
      var k, more := order[0], order[1..];
      KeywordsStep(s, order, acc);
      KeywordSound(s, k, acc);
      var (acc', r1) := ParseKeyword(s, k, acc).value;
      assert k !in more && order == [k] + more;
      OrderSound(r1, more, acc');
      var (keywords, r) := ParseKeywords(s, order, acc).value;
      KeywordPut(keywords, order, r);
    }
  }

  lemma KeywordsSound(s: Tokens)
    ensures var p := ParseKeywords(s, KEYWORDS, map[]); p.Some? ==> s == Put(KeywordsText(p.value.0), p.value.1)
  {
    OrderSound(s, KEYWORDS, map[]);
    var p := ParseKeywords(s, KEYWORDS, map[]);
    if p.Some? {
      var (keywords, r) := p.value;
      AttrsPrinted(Attrs(keywords, []), r);
      assert AttrsText(Attrs(keywords, [])) == KeywordsText(keywords);
    }
  }

  /** What is read as attributes is their text: the keywords in their order, and then the dictionary. */
  lemma AttrsSound(s: Tokens)
    ensures ParseAttrs(s).Some? ==> AttrsRead(s, ParseAttrs(s).value.0, ParseAttrs(s).value.1)
  {
    if ParseAttrs(s).Some? {
      KeywordsSound(s);
      var (keywords, r) := ParseKeywords(s, KEYWORDS, map[]).value;
      var (dict, rest) := ParseDict(r);
      PutPut(KeywordsText(keywords), DictText(dict), rest);
      PutOne(Dict(dict), rest);
    }
  }

  /** `ParseKeywordAttributes`, with `cursor` the parser's position: each keyword in turn, if it is there. */
  method ParseKeywordAttributes(s: Tokens) returns (r: Parsed<Attrs>)
    ensures r == ParseAttrs(s) && (r.Some? ==> AttrsRead(s, r.value.0, r.value.1))
  {
    AttrsSound(s);
    var cursor := s;
    var keywords: map<Keyword, string> := map[];
    for i := 0 to |KEYWORDS|
      invariant ParseKeywords(s, KEYWORDS, map[]) == ParseKeywords(cursor, KEYWORDS[i..], keywords)
    {
      var k := KEYWORDS[i];
      assert KEYWORDS[i..][0] == k && KEYWORDS[i..][1..] == KEYWORDS[i + 1..];
      if Starts(cursor, Word(k)) {
        cursor := cursor.rest;
        if !Starts(cursor, LParen) { return None; }
        cursor := cursor.rest;
        if cursor.End? || !cursor.first.Quoted? { return None; }
        var value := cursor.first.text;
        cursor := cursor.rest;
        if !Starts(cursor, RParen) { return None; }
        cursor := cursor.rest;
        keywords := keywords[k := value];
      }
    }
    var (dict, rest) := ParseDict(cursor);
    return Some((Attrs(keywords, dict), rest));
  }
}
