/** The textual form of `tfg.return`, in which control operands carry attribute dictionaries. */
module TfgReturn {
  import opened Wrappers
  import opened TfgTokens
  import opened TfgParts
  import opened TfgAsm

  /** Control operands, each followed by its attribute dictionary if that is not empty. */
  function PrintControls(ctls: seq<Operand>, dicts: seq<seq<Attr>>, rest: Tokens): Tokens
    requires |ctls| == |dicts|
  {
    if ctls == [] then rest
    else
      Then(Percent(ctls[0].name),
        PrintDict(dicts[0], if |ctls| == 1 then rest else Then(Comma, PrintControls(ctls[1..], dicts[1..], rest))))
  }

  function PrintReturn(op: ReturnOp, rest: Tokens): Tokens
    requires |op.controlAttrs| == |Ctls(op.operands)|
  {
    var data, ctls := Data(op.operands), Ctls(op.operands);
    var tail := PrintAttrs(op.attrs, PrintSignature(Types(data), [], rest));
    PrintOperands(data, LParen, RParen, PrintControlList(ctls, op.controlAttrs, tail))
  }

  /** The loop over control operands: it also ends, without complaint, after a trailing comma. */
  function ParseControls(s: Tokens): (seq<nat>, seq<seq<Attr>>, Tokens) {
    if s.End? || !s.first.Percent? then ([], [], s)
    else
      var (dict, r1) := ParseDict(s.rest);
      if Starts(r1, Comma) then
        var (names, dicts, r2) := ParseControls(r1.rest);
        ([s.first.name] + names, [dict] + dicts, r2)
      else ([s.first.name], [dict], r1)
  }

  function ParseControlList(s: Tokens): Option<(seq<nat>, seq<seq<Attr>>, Tokens)> {
    if Starts(s, LSquare) then
      var (names, dicts, r) := ParseControls(s.rest);
      var r' :- Expect(r, RSquare);
      Some((names, dicts, r'))
    else Some(([], [], s))
  }

  function PrintControlList(ctls: seq<Operand>, dicts: seq<seq<Attr>>, rest: Tokens): Tokens
    requires |ctls| == |dicts|
  {
    if ctls == [] then rest else Then(LSquare, PrintControls(ctls, dicts, Then(RSquare, rest)))
  }

  function ParseReturn(s: Tokens): Parsed<ReturnOp> {
    var (data, r1) :- ParseOperands(s, LParen, RParen);
    var (ctls, dicts, r2) :- ParseControlList(r1);
    var (attrs, r3) :- ParseAttrs(r2);
    var (types, r4) :- ParseColonTypes(r3);
    var names := data + ctls;
    Some((ReturnOp(Resolve(names, Resize(types, |names|)), dicts, attrs), r4))
  }

  /** Control operands with their dictionaries and commas between them; one more comma may follow. */
  ghost predicate ControlsRead(s: Tokens, names: seq<nat>, dicts: seq<seq<Attr>>, rest: Tokens)
    decreases |names|
  {
    |names| == |dicts|
    && if names == [] then s == rest && (s.Then? ==> !s.first.Percent?)
       else exists after ::
         && (s == Put([Percent(names[0])] + DictText(dicts[0]), after)
             || (dicts[0] == [] && s == Put([Percent(names[0]), Dict([])], after)))
         && if Starts(after, Comma) then ControlsRead(after.rest, names[1..], dicts[1..], rest)
            else |names| == 1 && after == rest
  }

  lemma {:induction false} ControlsSound(s: Tokens)
    ensures var (names, dicts, r) := ParseControls(s); ControlsRead(s, names, dicts, r)
  {
    if s.Then? && s.first.Percent? {
      var (names, dicts, r) := ParseControls(s);
      var (dict, after) := ParseDict(s.rest);
      assert names[0] == s.first.name && dicts[0] == dict;
      NamedDictPut(s.first.name, dict, s.rest, after);
      if Starts(after, Comma) {
        ControlsSound(after.rest);
        var (more, moreDicts, _) := ParseControls(after.rest);
        assert names[1..] == more && dicts[1..] == moreDicts;
      }
    }
  }

  lemma NamedDictPut(name: nat, dict: seq<Attr>, s: Tokens, after: Tokens)
    requires ParseDict(s) == (dict, after)
    ensures Then(Percent(name), s) == Put([Percent(name)] + DictText(dict), after)
            || (dict == [] && Then(Percent(name), s) == Put([Percent(name), Dict([])], after))
  {
    PutPut([Percent(name)], DictText(dict), after);
    PutOne(Dict(dict), after);
    PutOne(Percent(name), Put(DictText(dict), after));
    assert [Percent(name), Dict([])] == [Percent(name)] + [Dict([])];
    PutPut([Percent(name)], [Dict([])], after);
    PutOne(Dict([]), after);
    PutOne(Percent(name), Put([Dict([])], after));
  }

  /** The do-while loop of `ReturnOp::parse`, `cursor` being the parser's position. */
  method ControlLoop(s: Tokens) returns (names: seq<nat>, dicts: seq<seq<Attr>>, cursor: Tokens)
    ensures (names, dicts, cursor) == ParseControls(s)
  {
    names, dicts, cursor := [], [], s;
    var more := true;
    assert [] + ParseControls(s).0 == ParseControls(s).0 && [] + ParseControls(s).1 == ParseControls(s).1;
    while more
      invariant more ==> AfterControls(names, dicts, cursor) == ParseControls(s)
      invariant !more ==> (names, dicts, cursor) == ParseControls(s)
      decreases cursor, more
    {
      if cursor.End? || !cursor.first.Percent? {
        assert names + [] == names && dicts + [] == dicts;
        return;
      }
      var (dict, r) := ParseDict(cursor.rest);
      AfterStep(names, dicts, cursor);
      names, dicts := names + [cursor.first.name], dicts + [dict];
      more := Starts(r, Comma);
      cursor := if more then r.rest else r;
    }
  }

  method ParseControlOperands(s: Tokens) returns (names: seq<nat>, dicts: seq<seq<Attr>>, cursor: Tokens)
    ensures (names, dicts, cursor) == ParseControls(s) && ControlsRead(s, names, dicts, cursor)
  {
    names, dicts, cursor := ControlLoop(s);
    ControlsSound(s);
  }

  /** What the loop will have collected in the end. */
  ghost function AfterControls(names: seq<nat>, dicts: seq<seq<Attr>>, s: Tokens): (seq<nat>, seq<seq<Attr>>, Tokens) {
    var (n, d, r) := ParseControls(s);
    (names + n, dicts + d, r)
  }

  lemma AfterStep(names: seq<nat>, dicts: seq<seq<Attr>>, s: Tokens)
    requires s.Then? && s.first.Percent?
    ensures var (dict, r) := ParseDict(s.rest);
            var names', dicts' := names + [s.first.name], dicts + [dict];
            AfterControls(names, dicts, s)
                == if Starts(r, Comma) then AfterControls(names', dicts', r.rest) else (names', dicts', r)
  {
    var (dict, r) := ParseDict(s.rest);
    if Starts(r, Comma) {
      var (n, d, _) := ParseControls(r.rest);
      assert names + ([s.first.name] + n) == names + [s.first.name] + n;
      assert dicts + ([dict] + d) == dicts + [dict] + d;
    }
  }

  lemma {:induction false} ControlsRoundTrip(ctls: seq<Operand>, dicts: seq<seq<Attr>>, rest: Tokens)
    requires ctls != [] && |ctls| == |dicts| && Starts(rest, RSquare)
    ensures ParseControls(PrintControls(ctls, dicts, rest)) == (Names(ctls), dicts, rest)
  {
    if |ctls| == 1 {
      assert Names(ctls) == [ctls[0].name] && dicts == [dicts[0]];
    } else {
      ControlsRoundTrip(ctls[1..], dicts[1..], rest);
      assert Names(ctls) == [ctls[0].name] + Names(ctls[1..]) && dicts == [dicts[0]] + dicts[1..];
    }
  }

  lemma ControlListRoundTrip(ctls: seq<Operand>, dicts: seq<seq<Attr>>, rest: Tokens)
    requires |ctls| == |dicts| && !Starts(rest, LSquare)
    ensures ParseControlList(PrintControlList(ctls, dicts, rest)) == Some((Names(ctls), dicts, rest))
  {
    if ctls == [] {
      assert Names(ctls) == [] && dicts == [];
    } else {
      ControlsRoundTrip(ctls, dicts, Then(RSquare, rest));
    }
  }

  /** Every return with one dictionary per control operand, as its verifier demands, survives the trip;
      here a function-typed operand does no harm. */
  lemma ReturnRoundTrip(op: ReturnOp, rest: Tokens)
    requires |op.controlAttrs| == |Ctls(op.operands)| && Stops(rest)
    ensures ParseReturn(PrintReturn(op, rest)) == Some((op, rest))
  {
    var data, ctls := Data(op.operands), Ctls(op.operands);
    var sig := PrintSignature(Types(data), [], rest);
    var tail := PrintAttrs(op.attrs, sig);
    SignatureRoundTrip(Types(data), [], rest);
    AttrsRoundTrip(op.attrs, sig);
    AttrsFirst(op.attrs, sig);
    ControlListRoundTrip(ctls, op.controlAttrs, tail);
    OperandsRoundTrip(data, LParen, RParen, PrintControlList(ctls, op.controlAttrs, tail));
    ResolveTogether(op.operands);
  }

  lemma {:induction false} ControlsPrinted(ctls: seq<Operand>, dicts: seq<seq<Attr>>, rest: Tokens)
    requires |ctls| == |dicts|
    ensures PrintControls(ctls, dicts, rest) == Put(ControlsText(ctls, dicts), rest)
  {
    if ctls != [] {
      var name, dict := Percent(ctls[0].name), DictText(dicts[0]);
      if |ctls| == 1 {
        DictPut(dicts[0], rest);
        PutPut([name], dict, rest);
        PutOne(name, Put(dict, rest));
      } else {
        var more := ControlsText(ctls[1..], dicts[1..]);
        ControlsPrinted(ctls[1..], dicts[1..], rest);
        DictPut(dicts[0], Then(Comma, Put(more, rest)));
        CommaPut([name] + dict, more, rest);
        PutPut([name], dict, Then(Comma, Put(more, rest)));
        PutOne(name, Put(dict, Then(Comma, Put(more, rest))));
      }
    }
  }

  /** The text of a return. */
  lemma ReturnPrinted(op: ReturnOp, rest: Tokens)
    requires |op.controlAttrs| == |Ctls(op.operands)|
    ensures PrintReturn(op, rest) == Put(ReturnText(op), rest)
  {
    var data, ctls := Data(op.operands), Ctls(op.operands);
    var sig := PrintSignature(Types(data), [], rest);
    var tail := PrintAttrs(op.attrs, sig);
    SignaturePrinted(Types(data), [], rest);
    AttrsPrinted(op.attrs, sig);
    if ctls != [] {
      ControlsPrinted(ctls, op.controlAttrs, Then(RSquare, tail));
      BracketsPut(LSquare, ControlsText(ctls, op.controlAttrs), RSquare, tail);
    }
    OperandsPrinted(data, LParen, RParen, PrintControlList(ctls, op.controlAttrs, tail));
    FourPut(OperandsText(Names(data), LParen, RParen),
            if ctls == [] then [] else [LSquare] + ControlsText(ctls, op.controlAttrs) + [RSquare],
            AttrsText(op.attrs), SignatureText(Types(data), []), rest);
  }

  /** Whatever is read as a return is the text of its parts. */
  lemma ReturnSound(s: Tokens)
    ensures ParseReturn(s).Some? ==> ReturnRead(s, ParseReturn(s).value.0, ParseReturn(s).value.1)
  {
    if ParseReturn(s).Some? {
      var (data, r1) := ParseOperands(s, LParen, RParen).value;
      OperandsSound(s, LParen, RParen);
      var (ctls, dicts, r2) := ParseControlList(r1).value;
      ControlListSound(r1);
      var (attrs, r3) := ParseAttrs(r2).value;
      AttrsSound(r2);
      var (types, r4) := ParseColonTypes(r3).value;
      ColonTypesSound(r3);
      ReturnTyped(data + ctls, types, dicts, attrs);
      assert ParseReturn(s).value.0 == ReturnOp(Resolve(data + ctls, Resize(types, |data + ctls|)), dicts, attrs);
    }
  }

  lemma ControlListSound(s: Tokens)
    ensures var p := ParseControlList(s); p.Some? ==> ControlListRead(s, p.value.0, p.value.1, p.value.2)
  {
    if Starts(s, LSquare) {
      ControlsSound(s.rest);
    }
  }

  lemma ReturnTyped(names: seq<nat>, types: seq<Type>, dicts: seq<seq<Attr>>, attrs: Attrs)
    ensures var op := ReturnOp(Resolve(names, Resize(types, |names|)), dicts, attrs);
            && Names(op.operands) == names
            && forall i :: 0 <= i < |op.operands| ==> op.operands[i].ty == if i < |types| then types[i] else Control
  {
  }

  ghost predicate ControlListRead(s: Tokens, names: seq<nat>, dicts: seq<seq<Attr>>, rest: Tokens) {
    if Starts(s, LSquare) then ControlsRead(s.rest, names, dicts, Then(RSquare, rest))
    else names == [] && dicts == [] && s == rest
  }

  ghost predicate ReturnRead(s: Tokens, op: ReturnOp, rest: Tokens) {
    exists data, ctls, types, r1, r2, r3 ::
      && OperandsRead(s, LParen, RParen, data, r1) && ControlListRead(r1, ctls, op.controlAttrs, r2)
      && AttrsRead(r2, op.attrs, r3) && TypesRead(r3, types, rest)
      && Names(op.operands) == data + ctls
      && forall i :: 0 <= i < |op.operands| ==> op.operands[i].ty == if i < |types| then types[i] else Control
  }

  /** A comma after the last control operand is accepted. */
  lemma {:induction false} TrailingCommaRead(ctls: seq<Operand>, dicts: seq<seq<Attr>>, rest: Tokens)
    requires ctls != [] && |ctls| == |dicts| && (rest.Then? ==> !rest.first.Percent?)
    ensures ParseControls(Put(ControlsText(ctls, dicts), Then(Comma, rest))) == (Names(ctls), dicts, rest)
  {
    ControlsPrinted(ctls, dicts, Then(Comma, rest));
    if |ctls| == 1 {
      assert Names(ctls) == [ctls[0].name] + [] && dicts == [dicts[0]] + [];
    } else {
      TrailingCommaRead(ctls[1..], dicts[1..], rest);
      ControlsPrinted(ctls[1..], dicts[1..], Then(Comma, rest));
      assert Names(ctls) == [ctls[0].name] + Names(ctls[1..]) && dicts == [dicts[0]] + dicts[1..];
    }
  }
}
