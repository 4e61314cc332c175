/** Tokens of the textual form of TFG operations, and what the text of an operation is: operands, control
    operands, keyword attributes, dictionary and types, in this order. */
module TfgTokens {

  datatype Type = Control | Atom(id: nat) | Func(inputs: seq<Type>, results: seq<Type>)

  type Attr = nat
  datatype Keyword = Device | AssignedDevice | Name

  datatype Token =
    | LParen | RParen | LSquare | RSquare | Comma | Colon | Arrow
    | Percent(name: nat)        // an SSA name
    | Word(keyword: Keyword)
    | Quoted(text: string)
    | Dict(entries: seq<Attr>)  // a brace-delimited attribute dictionary
    | Prim(ty: Type)            // a type that is not a function type
    | OpName | RBrace           // what can follow an operation

  datatype Tokens = End | Then(first: Token, rest: Tokens)

  datatype Operand = Operand(name: nat, ty: Type)
  datatype Attrs = Attrs(keywords: map<Keyword, string>, dict: seq<Attr>)
  datatype Op = Op(operands: seq<Operand>, results: seq<Type>, attrs: Attrs)

  datatype ReturnOp = ReturnOp(operands: seq<Operand>, controlAttrs: seq<seq<Attr>>, attrs: Attrs)

  /** A stretch of tokens in front of others. */
  function Put(text: seq<Token>, rest: Tokens): Tokens {
    if text == [] then rest else Then(text[0], Put(text[1..], rest))
  }

  lemma {:induction false} PutPut(a: seq<Token>, b: seq<Token>, rest: Tokens)
    ensures Put(a + b, rest) == Put(a, Put(b, rest))
  {
    if a == [] {
      assert a + b == b;
    } else {
      assert (a + b)[1..] == a[1..] + b;
      PutPut(a[1..], b, rest);
    }
  }

  // ---- Operands ----

  function Names(ops: seq<Operand>): seq<nat> {
    seq(|ops|, i requires 0 <= i < |ops| => ops[i].name)
  }

  function Types(ops: seq<Operand>): seq<Type> {
    seq(|ops|, i requires 0 <= i < |ops| => ops[i].ty)
  }

  /** How many values precede the trailing control values. */
  function DataCount(values: seq<Operand>): (n: nat)
    ensures n <= |values|
  {
    if values == [] then 0
    else if values[|values| - 1].ty.Control? then DataCount(values[..|values| - 1])
    else |values|
  }

  function Data(ops: seq<Operand>): seq<Operand> { ops[..DataCount(ops)] }
  function Ctls(ops: seq<Operand>): seq<Operand> { ops[DataCount(ops)..] }

  /** Names with commas between them. */
  function NamesText(names: seq<nat>): seq<Token> {
    if names == [] then []
    else if |names| == 1 then [Percent(names[0])]
    else [Percent(names[0]), Comma] + NamesText(names[1..])
  }

  /** A bracketed list, or nothing for no names. */
  function OperandsText(names: seq<nat>, open: Token, close: Token): seq<Token> {
    if names == [] then [] else [open] + NamesText(names) + [close]
  }

  // ---- Types ----

  /** A function type in full: (inputs) -> (results). */
  function TypeText(t: Type): seq<Token>
    decreases t, 1
  {
    match t
    case Func(inputs, results) => [LParen] + TypesText(inputs) + [RParen, Arrow, LParen] + TypesText(results) + [RParen]
    case _ => [Prim(t)]
  }

  function TypesText(ts: seq<Type>): seq<Token>
    decreases ts, 0
  {
    if ts == [] then []
    else if |ts| == 1 then TypeText(ts[0])
    else TypeText(ts[0]) + [Comma] + TypesText(ts[1..])
  }

  /** The data inputs alone if there is no data result, and nothing if there is neither. */
  function SignatureText(inputs: seq<Type>, outputs: seq<Type>): seq<Token> {
    if outputs != [] then [Colon] + TypeText(Func(inputs, outputs))
    else if inputs != [] then [Colon] + TypesText(inputs)
    else []
  }

  // ---- Attributes ----

  function KeywordText(keywords: map<Keyword, string>, k: Keyword): seq<Token> {
    if k in keywords then [Word(k), LParen, Quoted(keywords[k]), RParen] else []
  }

  /** Device, assigned device and name, each if it is there. */
  function KeywordsText(keywords: map<Keyword, string>): seq<Token> {
    KeywordText(keywords, Device) + KeywordText(keywords, AssignedDevice) + KeywordText(keywords, Name)
  }

  function DictText(dict: seq<Attr>): seq<Token> {
    if dict == [] then [] else [Dict(dict)]
  }

  function AttrsText(attrs: Attrs): seq<Token> {
    KeywordsText(attrs.keywords) + DictText(attrs.dict)
  }

  // ---- Operations ----

  function OpText(op: Op): seq<Token>
    requires op.results != []
  {
    OperandsText(Names(Data(op.operands)), LParen, RParen)
    + OperandsText(Names(Ctls(op.operands)), LSquare, RSquare)
    + AttrsText(op.attrs)
    + SignatureText(Types(Data(op.operands)), op.results[..|op.results| - 1])
  }

  /** Control operands of a return, each with its dictionary. */
  function ControlsText(ctls: seq<Operand>, dicts: seq<seq<Attr>>): seq<Token>
    requires |ctls| == |dicts|
  {
    if ctls == [] then []
    else if |ctls| == 1 then [Percent(ctls[0].name)] + DictText(dicts[0])
    else [Percent(ctls[0].name)] + DictText(dicts[0]) + [Comma] + ControlsText(ctls[1..], dicts[1..])
  }

  function ReturnText(op: ReturnOp): seq<Token>
    requires |op.controlAttrs| == |Ctls(op.operands)|
  {
    OperandsText(Names(Data(op.operands)), LParen, RParen)
    + (if Ctls(op.operands) == [] then [] else [LSquare] + ControlsText(Ctls(op.operands), op.controlAttrs) + [RSquare])
    + AttrsText(op.attrs)
    + SignatureText(Types(Data(op.operands)), [])
  }
}
