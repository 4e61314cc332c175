/** The textual form of TFG operations at token level: `printCustomTfOp` and `ParseCustomTfOp`. Control
    operands and the control result are not given a type in the text. */
module TfgAsm {
  import opened Wrappers
  import opened TfgTokens
  import opened TfgParts

  // ---- Data before control ----

  ghost predicate ControlsTrail(ts: seq<Type>) {
    forall i, j :: 0 <= i < j < |ts| && ts[i].Control? ==> ts[j].Control?
  }

  /** The check that decides between the custom and the generic form, and the verifier's own. */
  method ControlsAreLast(ts: seq<Type>) returns (ok: bool)
    ensures ok <==> ControlsTrail(ts)
  {
    var hasControlDep := false;
    for i := 0 to |ts|
      invariant ControlsTrail(ts[..i])
      invariant hasControlDep <==> exists k :: 0 <= k < i && ts[k].Control?
    {
      if ts[i].Control? {
        hasControlDep := true;
      } else if hasControlDep {
        return false;
      }
    }
    assert ts[..|ts|] == ts;
    return true;
  }

  method SplitDataAndControlValues(values: seq<Operand>) returns (data: seq<Operand>, control: seq<Operand>)
    ensures data == values[..DataCount(values)] && control == values[DataCount(values)..]
    ensures data + control == values && (forall i :: 0 <= i < |control| ==> control[i].ty.Control?)
    ensures data == [] || !data[|data| - 1].ty.Control?
  {
    var numCtl := 0;
    assert values[..|values|] == values;
    while numCtl < |values| && values[|values| - 1 - numCtl].ty.Control?
      invariant numCtl <= |values| && DataCount(values) == DataCount(values[..|values| - numCtl])
      invariant forall i :: |values| - numCtl <= i < |values| ==> values[i].ty.Control?
    {
      assert values[..|values| - numCtl][..|values| - numCtl - 1] == values[..|values| - (numCtl + 1)];
      numCtl := numCtl + 1;
    }
    var splitIdx := |values| - numCtl;
    data, control := values[..splitIdx], values[splitIdx..];
  }

  lemma {:induction false} CtlsAreControl(ops: seq<Operand>)
    ensures forall i :: 0 <= i < |Ctls(ops)| ==> Ctls(ops)[i].ty.Control?
  {
    if ops != [] && ops[|ops| - 1].ty.Control? {
      var init := ops[..|ops| - 1];
      CtlsAreControl(init);
      assert Ctls(ops) == Ctls(init) + [ops[|ops| - 1]];
    }
  }

  // ---- Operations ----

  /** The type part: the inputs alone when the only result is the control token, else a function type. */
  function PrintSignature(inputs: seq<Type>, outputs: seq<Type>, rest: Tokens): Tokens {
    if outputs != [] then Then(Colon, PrintType(Func(inputs, outputs), rest))
    else if inputs != [] then Then(Colon, PrintTypes(inputs, rest))
    else rest
  }

  function PrintOp(op: Op, rest: Tokens): Tokens
    requires op.results != []
  {
    PrintOperands(Data(op.operands), LParen, RParen,
      PrintOperands(Ctls(op.operands), LSquare, RSquare,
        PrintAttrs(op.attrs, PrintSignature(Types(Data(op.operands)), op.results[..|op.results| - 1], rest))))
  }

  /** `SmallVector::resize` with the control type as filler. */
  function Resize(ts: seq<Type>, n: nat): (r: seq<Type>)
    ensures |r| == n
  {
    if n <= |ts| then ts[..n] else ts + seq(n - |ts|, _ => Control)
  }

  function Resolve(names: seq<nat>, types: seq<Type>): seq<Operand>
    requires |names| == |types|
  {
    seq(|names|, i requires 0 <= i < |names| => Operand(names[i], types[i]))
  }

  /** A single function type is the signature; otherwise the types are those of the data operands. */
  function BuildOp(data: seq<nat>, ctls: seq<nat>, attrs: Attrs, types: seq<Type>): Option<Op> {
    var names := data + ctls;
    if |types| == 1 && types[0].Func? then
      if |types[0].inputs| != |data| then None
      else Some(Op(Resolve(names, Resize(types[0].inputs, |names|)), types[0].results + [Control], attrs))
    else Some(Op(Resolve(names, Resize(types, |names|)), [Control], attrs))
  }

  function ParseOp(s: Tokens): Parsed<Op> {
    var (data, r1) :- ParseOperands(s, LParen, RParen);
    var (ctls, r2) :- ParseOperands(r1, LSquare, RSquare);
    var (attrs, r3) :- ParseAttrs(r2);
    var (types, r4) :- ParseColonTypes(r3);
    var op :- BuildOp(data, ctls, attrs, types);
    Some((op, r4))
  }

  /** What may come after an operation: the next one, or the end of the block. */
  predicate Stops(s: Tokens) {
    s.Then? ==> s.first.Percent? || s.first.OpName? || s.first.RBrace?
  }

  /** Operations that get the custom form and whose last result is the control token. */
  ghost predicate Printable(op: Op) {
    ControlsTrail(Types(op.operands)) && op.results != [] && op.results[|op.results| - 1].Control?
  }

  /** One data operand of function type and no data result: its type reads as a signature. */
  predicate Ambiguous(op: Op) {
    |op.results| == 1 && |Data(op.operands)| == 1 && Data(op.operands)[0].ty.Func?
  }

  function Signature(inputs: seq<Type>, outputs: seq<Type>): seq<Type> {
    if outputs != [] then [Func(inputs, outputs)] else inputs
  }

  lemma SignatureRoundTrip(inputs: seq<Type>, outputs: seq<Type>, rest: Tokens)
    requires Stops(rest)
    ensures ParseColonTypes(PrintSignature(inputs, outputs, rest)) == Some((Signature(inputs, outputs), rest))
    ensures var s := PrintSignature(inputs, outputs, rest); s.Then? ==> s.first == Colon || s == rest
  {
    if outputs != [] {
      assert PrintTypes([Func(inputs, outputs)], rest) == PrintType(Func(inputs, outputs), rest);
      TypesRoundTrip([Func(inputs, outputs)], rest);
    } else if inputs != [] {
      TypesRoundTrip(inputs, rest);
    }
  }

  /** Everything before the types comes back as it was. */
  lemma HeadRoundTrip(data: seq<Operand>, ctls: seq<Operand>, attrs: Attrs, tail: Tokens)
    requires tail.Then? ==> tail.first == Colon || Stops(tail)
    ensures var s :=
            PrintOperands(data, LParen, RParen, PrintOperands(ctls, LSquare, RSquare, PrintAttrs(attrs, tail)));
            && ParseOperands(s, LParen, RParen)
                == Some((Names(data), PrintOperands(ctls, LSquare, RSquare, PrintAttrs(attrs, tail))))
            && ParseOperands(PrintOperands(ctls, LSquare, RSquare, PrintAttrs(attrs, tail)), LSquare, RSquare)
               == Some((Names(ctls), PrintAttrs(attrs, tail)))
            && ParseAttrs(PrintAttrs(attrs, tail)) == Some((attrs, tail))
  {
    AttrsRoundTrip(attrs, tail);
    AttrsFirst(attrs, tail);
    OperandsRoundTrip(ctls, LSquare, RSquare, PrintAttrs(attrs, tail));
    OperandsRoundTrip(data, LParen, RParen, PrintOperands(ctls, LSquare, RSquare, PrintAttrs(attrs, tail)));
  }

  lemma AttrsFirst(attrs: Attrs, tail: Tokens)
    requires tail.Then? ==> tail.first == Colon || Stops(tail)
    ensures var s := PrintAttrs(attrs, tail); !Starts(s, LParen) && !Starts(s, LSquare)
  {
    KeywordsFirst(attrs.keywords, KEYWORDS, PrintDict(attrs.dict, tail));
  }

  lemma {:induction false} KeywordsFirst(keywords: map<Keyword, string>, order: seq<Keyword>, rest: Tokens)
    ensures var s := PrintKeywords(keywords, order, rest); s == rest || (s.Then? && s.first.Word?)
  {
    if order != [] {
      KeywordsFirst(keywords, order[1..], rest);
    }
  }

  /** Names and types of data and control operands put together again. */
  lemma ResolveTogether(ops: seq<Operand>)
    ensures Resolve(Names(Data(ops)) + Names(Ctls(ops)), Resize(Types(Data(ops)), |ops|)) == ops
  {
    CtlsAreControl(ops);
    var names, types := Names(Data(ops)) + Names(Ctls(ops)), Resize(Types(Data(ops)), |ops|);
    forall i | 0 <= i < |ops| ensures names[i] == ops[i].name && types[i] == ops[i].ty {
      if i >= DataCount(ops) {
        assert ops[i] == Ctls(ops)[i - DataCount(ops)];
      }
    }
  }

  lemma SignaturePrinted(inputs: seq<Type>, outputs: seq<Type>, rest: Tokens)
    ensures PrintSignature(inputs, outputs, rest) == Put(SignatureText(inputs, outputs), rest)
  {
    if outputs != [] {
      TypePrinted(Func(inputs, outputs), rest);
      PutPut([Colon], TypeText(Func(inputs, outputs)), rest);
      PutOne(Colon, Put(TypeText(Func(inputs, outputs)), rest));
    } else if inputs != [] {
      TypesPrinted(inputs, rest);
      PutPut([Colon], TypesText(inputs), rest);
      PutOne(Colon, Put(TypesText(inputs), rest));
    }
  }

  lemma FourPut(a: seq<Token>, b: seq<Token>, c: seq<Token>, d: seq<Token>, rest: Tokens)
    ensures Put(a + b + c + d, rest) == Put(a, Put(b, Put(c, Put(d, rest))))
  {
    PutPut(a + b + c, d, rest);
    PutPut(a + b, c, Put(d, rest));
    PutPut(a, b, Put(c, Put(d, rest)));
  }

  /** The text of an operation. */
  lemma OpPrinted(op: Op, rest: Tokens)
    requires op.results != []
    ensures PrintOp(op, rest) == Put(OpText(op), rest)
  {
    var data, ctls := Data(op.operands), Ctls(op.operands);
    var outputs := op.results[..|op.results| - 1];
    var sig := PrintSignature(Types(data), outputs, rest);
    SignaturePrinted(Types(data), outputs, rest);
    AttrsPrinted(op.attrs, sig);
    OperandsPrinted(ctls, LSquare, RSquare, PrintAttrs(op.attrs, sig));
    OperandsPrinted(data, LParen, RParen, PrintOperands(ctls, LSquare, RSquare, PrintAttrs(op.attrs, sig)));
    FourPut(OperandsText(Names(data), LParen, RParen), OperandsText(Names(ctls), LSquare, RSquare),
            AttrsText(op.attrs), SignatureText(Types(data), outputs), rest);
  }

  /** `printCustomTfOp`: out-of-order control values send the operation to the generic printer instead. */
  method PrintCustomTfOp(op: Op, rest: Tokens) returns (generic: bool, text: Tokens)
    requires op.results != []
    ensures generic <==> !ControlsTrail(Types(op.operands)) || !ControlsTrail(op.results)
    ensures !generic ==> text == PrintOp(op, rest) == Put(OpText(op), rest)
  {
    OpPrinted(op, rest);
    text := rest;
    var operandsOk := ControlsAreLast(Types(op.operands));
    var resultsOk := ControlsAreLast(op.results);
    generic := !operandsOk || !resultsOk;
    if !generic {
      var data, ctls := SplitDataAndControlValues(op.operands);
      text := PrintSignature(Types(data), op.results[..|op.results| - 1], text);
      text := PrintAttrs(op.attrs, text);
      text := PrintOperands(ctls, LSquare, RSquare, text);
      text := PrintOperands(data, LParen, RParen, text);
    }
  }

  /** What is rebuilt from the parts of an operation as they stand in its text. */
  function Rebuilt(op: Op): Option<Op>
    requires op.results != []
  {
    var data, ctls := Data(op.operands), Ctls(op.operands);
    BuildOp(Names(data), Names(ctls), op.attrs, Signature(Types(data), op.results[..|op.results| - 1]))
  }

  /** The parser gets the parts the printer put down. */
  lemma PartsRoundTrip(op: Op, rest: Tokens)
    requires op.results != [] && Stops(rest)
    ensures ParseOp(PrintOp(op, rest)) == if Rebuilt(op).None? then None else Some((Rebuilt(op).value, rest))
  {
    var data, ctls := Data(op.operands), Ctls(op.operands);
    var outputs := op.results[..|op.results| - 1];
    SignatureRoundTrip(Types(data), outputs, rest);
    HeadRoundTrip(data, ctls, op.attrs, PrintSignature(Types(data), outputs, rest));
  }

  lemma BuildSigned(op: Op)
    requires Printable(op) && |op.results| > 1
    ensures Rebuilt(op) == Some(op)
  {
    var data, ctls, outputs := Data(op.operands), Ctls(op.operands), op.results[..|op.results| - 1];
    assert outputs + [Control] == op.results;
    assert Signature(Types(data), outputs) == [Func(Types(data), outputs)];
    assert |Names(data) + Names(ctls)| == |op.operands|;
    ResolveTogether(op.operands);
  }

  lemma BuildPlain(op: Op)
    requires Printable(op) && |op.results| == 1 && !Ambiguous(op)
    ensures Rebuilt(op) == Some(op)
  {
    var data, ctls := Data(op.operands), Ctls(op.operands);
    assert op.results == [Control] && op.results[..0] == [];
    assert Signature(Types(data), []) == Types(data);
    assert |Names(data) + Names(ctls)| == |op.operands|;
    ResolveTogether(op.operands);
  }

  lemma BuildAmbiguous(op: Op)
    requires Printable(op) && Ambiguous(op)
    ensures Rebuilt(op) != Some(op)
  {
    var data, ctls := Data(op.operands), Ctls(op.operands);
    assert op.results[..0] == [] && Signature(Types(data), []) == Types(data) == [data[0].ty];
    Misread(data[0].ty, Names(data) + Names(ctls), op);
  }

  lemma BuildIff(op: Op)
    requires Printable(op)
    ensures Rebuilt(op) == Some(op) <==> !Ambiguous(op)
  {
    if |op.results| > 1 {
      BuildSigned(op);
    } else if Ambiguous(op) {
      BuildAmbiguous(op);
    } else {
      BuildPlain(op);
    }
  }

  /** Parsing undoes printing exactly for the operations that are not ambiguous; an ambiguous one is
      rejected or read back as a different operation. */
  lemma OpRoundTripIff(op: Op, rest: Tokens)
    requires Printable(op) && Stops(rest)
    ensures ParseOp(PrintOp(op, rest)) == Some((op, rest)) <==> !Ambiguous(op)
  {
    PartsRoundTrip(op, rest);
    BuildIff(op);
  }

  /** A signature's first input is never the signature itself. */
  lemma Misread(t: Type, names: seq<nat>, op: Op)
    requires t.Func? && |names| > 0 && op.operands != [] && op.operands[0].ty == t
    ensures |t.inputs| == 1 ==> Resolve(names, Resize(t.inputs, |names|)) != op.operands
  {
    if |t.inputs| == 1 {
      assert Resolve(names, Resize(t.inputs, |names|))[0].ty == t.inputs[0];
      assert t.inputs[0] < t;
    }
  }

  /** Read as a signature, a single function type gives the operand the type of its own input. */
  lemma BuildMisreads(name: nat, t: Type, u: Type, attrs: Attrs)
    ensures BuildOp([name], [], attrs, [Func([t], [u])]) == Some(Op([Operand(name, t)], [u, Control], attrs))
  {
    var names := [name] + [];
    assert |names| == 1 && Resize([t], |names|) == [t];
    assert Resolve(names, [t]) == [Operand(name, t)];
    assert [u] + [Control] == [u, Control];
  }

  /** An ambiguous operation: one operand of type (t) -> (u), printed as a bare type. */
  lemma AmbiguousOpMisreads(name: nat, t: Type, u: Type, attrs: Attrs, rest: Tokens)
    requires Stops(rest)
    ensures ParseOp(PrintOp(Op([Operand(name, Func([t], [u]))], [Control], attrs), rest))
            == Some((Op([Operand(name, t)], [u, Control], attrs), rest))
  {
    var op := Op([Operand(name, Func([t], [u]))], [Control], attrs);
    PartsRoundTrip(op, rest);
    BuildMisreads(name, t, u, attrs);
    assert Data(op.operands) == op.operands && Ctls(op.operands) == [];
    assert Types(op.operands) == [Func([t], [u])] && Names(op.operands) == [name] && Names(Ctls(op.operands)) == [];
  }

  // ---- What the parser accepts ----

  /** The operation that names and types make: a single function type gives the types of the data operands
      and of the data results; other types are those of the data operands; control types fill up. */
  ghost predicate BuiltFrom(data: seq<nat>, ctls: seq<nat>, types: seq<Type>, op: Op) {
    var names := data + ctls;
    && Names(op.operands) == names
    && if |types| == 1 && types[0].Func? then
         && |types[0].inputs| == |data| && op.results == types[0].results + [Control]
         && forall i :: 0 <= i < |op.operands| ==>
              op.operands[i].ty == if i < |data| then types[0].inputs[i] else Control
       else
         && op.results == [Control]
         && forall i :: 0 <= i < |op.operands| ==> op.operands[i].ty == if i < |types| then types[i] else Control
  }

  ghost predicate OpRead(s: Tokens, op: Op, rest: Tokens) {
    exists data, ctls, types, r1, r2, r3 ::
      && OperandsRead(s, LParen, RParen, data, r1) && OperandsRead(r1, LSquare, RSquare, ctls, r2)
      && AttrsRead(r2, op.attrs, r3) && TypesRead(r3, types, rest) && BuiltFrom(data, ctls, types, op)
  }

  lemma BuildSound(data: seq<nat>, ctls: seq<nat>, attrs: Attrs, types: seq<Type>)
    ensures var op := BuildOp(data, ctls, attrs, types);
            if op.None? then |types| == 1 && types[0].Func? && |types[0].inputs| != |data|
            else op.value.attrs == attrs && BuiltFrom(data, ctls, types, op.value)
  {
    var op := BuildOp(data, ctls, attrs, types);
    if op.Some? {
      assert Names(op.value.operands) == data + ctls;
    }
  }

  /** Whatever is read as an operation is the text of its parts, and nothing else is made of them. */
  lemma OpSound(s: Tokens)
    ensures ParseOp(s).Some? ==> OpRead(s, ParseOp(s).value.0, ParseOp(s).value.1)
  {
    if ParseOp(s).Some? {
      var (data, r1) := ParseOperands(s, LParen, RParen).value;
      OperandsSound(s, LParen, RParen);
      var (ctls, r2) := ParseOperands(r1, LSquare, RSquare).value;
      OperandsSound(r1, LSquare, RSquare);
      var (attrs, r3) := ParseAttrs(r2).value;
      AttrsSound(r2);
      var (types, r4) := ParseColonTypes(r3).value;
      ColonTypesSound(r3);
      BuildSound(data, ctls, attrs, types);
    }
  }

  lemma OperandsComplete(s: Tokens, open: Token, close: Token, names: seq<nat>, rest: Tokens)
    requires OperandsRead(s, open, close, names, rest) && close != Comma && !close.Percent?
    ensures ParseOperands(s, open, close) == Some((names, rest))
  {
    if names != [] {
      var ops := seq(|names|, i requires 0 <= i < |names| => Operand(names[i], Control));
      assert Names(ops) == names;
      OperandsPrinted(ops, open, close, rest);
      NamesRoundTrip(ops, Then(close, rest));
    }
  }

  lemma AttrsComplete(s: Tokens, attrs: Attrs, rest: Tokens)
    requires AttrsRead(s, attrs, rest) && NoWord(rest) && (rest.Then? ==> !rest.first.Dict?)
    ensures ParseAttrs(s) == Some((attrs, rest))
  {
    if s == Put(AttrsText(attrs), rest) {
      AttrsPrinted(attrs, rest);
      AttrsRoundTrip(attrs, rest);
    } else {
      var tail := Then(Dict([]), rest);
      AttrsPrinted(Attrs(attrs.keywords, []), tail);
      assert AttrsText(Attrs(attrs.keywords, [])) == KeywordsText(attrs.keywords);
      KeywordsRoundTrip(attrs.keywords, KEYWORDS, map[], tail);
      AllKeywords(attrs.keywords);
    }
  }

  lemma TypesComplete(s: Tokens, types: seq<Type>, rest: Tokens)
    requires TypesRead(s, types, rest) && Stops(rest)
    ensures ParseColonTypes(s) == Some((types, rest)) && (s.Then? ==> s.first == Colon || Stops(s))
  {
    if types != [] {
      TypesPrinted(types, rest);
      TypesRoundTrip(types, rest);
      PutPut([Colon], TypesText(types), rest);
      PutOne(Colon, Put(TypesText(types), rest));
    }
  }

  lemma BuildComplete(data: seq<nat>, ctls: seq<nat>, types: seq<Type>, op: Op)
    requires BuiltFrom(data, ctls, types, op)
    ensures BuildOp(data, ctls, op.attrs, types) == Some(op)
  {
    BuildSound(data, ctls, op.attrs, types);
    SameOp(data, ctls, types, BuildOp(data, ctls, op.attrs, types).value, op);
  }

  lemma SameOp(data: seq<nat>, ctls: seq<nat>, types: seq<Type>, op: Op, other: Op)
    requires BuiltFrom(data, ctls, types, op) && BuiltFrom(data, ctls, types, other) && op.attrs == other.attrs
    ensures op == other
  {
    assert |op.operands| == |Names(op.operands)| == |Names(other.operands)| == |other.operands|;
    forall i | 0 <= i < |op.operands| ensures op.operands[i] == other.operands[i] {
      assert Names(op.operands)[i] == Names(other.operands)[i];
    }
    assert op.operands == other.operands;
  }

  /** The parser reads an operation exactly from the texts of its parts, empty brackets and an empty dictionary
      being optional. */
  lemma OpReadIff(s: Tokens, op: Op, rest: Tokens)
    requires Stops(rest)
    ensures ParseOp(s) == Some((op, rest)) <==> OpRead(s, op, rest)
  {
    OpSound(s);
    if OpRead(s, op, rest) {
      var data, ctls, types, r1, r2, r3 :|
        && OperandsRead(s, LParen, RParen, data, r1) && OperandsRead(r1, LSquare, RSquare, ctls, r2)
        && AttrsRead(r2, op.attrs, r3) && TypesRead(r3, types, rest) && BuiltFrom(data, ctls, types, op);
      OperandsComplete(s, LParen, RParen, data, r1);
      OperandsComplete(r1, LSquare, RSquare, ctls, r2);
      TypesComplete(r3, types, rest);
      AttrsComplete(r2, op.attrs, r3);
      BuildComplete(data, ctls, types, op);
    }
  }

  /** The text of an operation with any signature at all. */
  function SignedText(data: seq<nat>, ctls: seq<nat>, attrs: Attrs, t: Type): seq<Token> {
    OperandsText(data, LParen, RParen) + OperandsText(ctls, LSquare, RSquare)
    + AttrsText(attrs) + ([Colon] + TypeText(t))
  }

  lemma SignedPrinted(data: seq<Operand>, ctls: seq<Operand>, attrs: Attrs, t: Type, rest: Tokens)
    ensures Put(SignedText(Names(data), Names(ctls), attrs, t), rest)
            == PrintOperands(data, LParen, RParen,
                 PrintOperands(ctls, LSquare, RSquare, PrintAttrs(attrs, Then(Colon, PrintType(t, rest)))))
  {
    var tail := Then(Colon, PrintType(t, rest));
    TypePrinted(t, rest);
    PutPut([Colon], TypeText(t), rest);
    PutOne(Colon, Put(TypeText(t), rest));
    AttrsPrinted(attrs, tail);
    OperandsPrinted(ctls, LSquare, RSquare, PrintAttrs(attrs, tail));
    OperandsPrinted(data, LParen, RParen, PrintOperands(ctls, LSquare, RSquare, PrintAttrs(attrs, tail)));
    FourPut(OperandsText(Names(data), LParen, RParen), OperandsText(Names(ctls), LSquare, RSquare),
            AttrsText(attrs), [Colon] + TypeText(t), rest);
  }

  /** A signature with a number of inputs other than that of the data operands is rejected. */
  lemma MismatchRejected(data: seq<Operand>, ctls: seq<Operand>, attrs: Attrs,
                         inputs: seq<Type>, outputs: seq<Type>, rest: Tokens)
    requires |inputs| != |data| && Stops(rest)
    ensures ParseOp(Put(SignedText(Names(data), Names(ctls), attrs, Func(inputs, outputs)), rest)) == None
  {
    var t := Func(inputs, outputs);
    SignedPrinted(data, ctls, attrs, t, rest);
    HeadRoundTrip(data, ctls, attrs, Then(Colon, PrintType(t, rest)));
    assert PrintTypes([t], rest) == PrintType(t, rest);
    TypesRoundTrip([t], rest);
  }
}
