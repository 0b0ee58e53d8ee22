/** What the locals extractor receives from the HCL parser and the cty
    evaluator. Parsing, schema matching and expression evaluation are library
    code; here they appear only through their outcomes. */
module Hcl {
  import opened Wrappers

  /** A cty value obtained by evaluating an expression in an empty context. */
  datatype Value =
    | Str(s: string)
    | Num(n: real)
    | Bool(b: bool)
      /** A value of object type: its attribute names with their values, in
          the evaluator's iteration order. The element key of an object is
          always a cty string, so it is kept as a plain string here. Evaluation
          never produces two elements with the same key (`KeysDistinct`); the
          sequence form admits duplicates only so that decoding is total. */
    | Obj(fields: seq<(string, Value)>)
    | Tuple(items: seq<Value>)

  /** One attribute of a block: its name and the outcome of evaluating its
      expression, `None` when the evaluation reported error diagnostics. */
  datatype Attribute = Attribute(name: string, value: Option<Value>)

  /** The answer of `JustAttributes` on a block's body. */
  datatype Body =
    | AttributeErrors(diag: string)
    | Attributes(attrs: seq<Attribute>)

  /** A top-level block of the configuration file, with its type keyword. */
  datatype Block = Block(kind: string, body: Body)

  /** The outcome of `ParseHCL` followed by `PartialContent` on the root body:
      error diagnostics from either step, or the top-level blocks in source order. */
  datatype ParseResult =
    | SyntaxErrors(diag: string)
    | ContentErrors(diag: string)
    | Parsed(blocks: seq<Block>)

  /** Attribute names in one body are unique (they are the keys of a map). */
  predicate NamesDistinct(attrs: seq<Attribute>)
  {
    forall i, j :: 0 <= i < j < |attrs| ==> attrs[i].name != attrs[j].name
  }

  /** Attribute names of one object value are unique. */
  predicate KeysDistinct(fields: seq<(string, Value)>)
  {
    forall i, j :: 0 <= i < j < |fields| ==> fields[i].0 != fields[j].0
  }
}
