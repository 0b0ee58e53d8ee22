/** The meaning of the locals extractor as functions: which attributes of the
    `locals` blocks are kept, how an object value becomes a string map, and
    which field of `LocalVars` each kept attribute replaces. */
module LocalsSpec {
  import opened Wrappers
  import opened Hcl

  /** The block type the extractor asks the parser for. */
  const LocalsBlockType: string := "locals"

  /** The three fields of `LocalVars`. */
  datatype Field = ToDisplayName | ToFixed | ToShort

  /** The attribute name routed to each field (also its JSON key). */
  function AttributeName(f: Field): string
  {
    match f
    case ToDisplayName => "to_display_name"
    case ToFixed => "to_fixed"
    case ToShort => "to_short"
  }

  /** The field an attribute name is routed to, if any. */
  function FieldNamed(name: string): (r: Option<Field>)
    ensures forall f :: r == Some(f) <==> AttributeName(f) == name
  {
    if name == "to_display_name" then Some(ToDisplayName)
    else if name == "to_fixed" then Some(ToFixed)
    else if name == "to_short" then Some(ToShort)
    else None
  }

  /** The value of the three fields of `LocalVars`. */
  datatype Locals = Locals(
    toDisplayName: map<string, string>,
    toFixed: map<string, string>,
    toShort: map<string, string>)
  {
    function Get(f: Field): map<string, string>
    {
      match f
      case ToDisplayName => toDisplayName
      case ToFixed => toFixed
      case ToShort => toShort
    }

    /** Replaces one field wholesale. */
    function Set(f: Field, m: map<string, string>): (r: Locals)
      ensures r.Get(f) == m
      ensures forall g :: g != f ==> r.Get(g) == Get(g)
    {
      match f
      case ToDisplayName => this.(toDisplayName := m)
      case ToFixed => this.(toFixed := m)
      case ToShort => this.(toShort := m)
    }
  }

  /** The freshly allocated result: three present, empty maps. */
  const Empty: Locals := Locals(map[], map[], map[])

  /** The errors the extractor returns, one per failing library step. */
  datatype Error =
    | ParseFailed(diag: string)
    | ContentFailed(diag: string)
    | AttributesFailed(diag: string)
  {
    /** The text of the returned error: a prefix naming the failing step,
        followed by the library's diagnostics unchanged. */
    function Message(): (m: string)
      ensures |m| > |diag| + 10 && m[|m| - |diag|..] == diag
      ensures m[..10] == "failed to "
    {
      match this
      case ParseFailed(d) => "failed to parse HCL: " + d
      case ContentFailed(d) => "failed to get content: " + d
      case AttributesFailed(d) => "failed to get attributes: " + d
    }
  }

  /** The string map read off an object's elements in iteration order: an
      element is kept when its value is a string, and a later element with
      the same key overwrites an earlier one. */
  function StringEntries(fields: seq<(string, Value)>): map<string, string>
  {
    if fields == [] then map[]
    else
      var m := StringEntries(fields[..|fields| - 1]);
      var (k, v) := fields[|fields| - 1];
      if v.Str? then m[k := v.s] else m
  }

  /** Attribute `a` sets field `f`: its name is routed to `f` and it evaluated
      without errors to an object. */
  predicate Assigns(a: Attribute, f: Field)
  {
    a.name == AttributeName(f) && a.value.Some? && a.value.value.Obj?
  }

  /** The effect of one attribute on the fields. */
  function ApplyAttribute(s: Locals, a: Attribute): (r: Locals)
    ensures forall f :: Assigns(a, f) ==> r.Get(f) == StringEntries(a.value.value.fields)
    ensures forall f :: !Assigns(a, f) ==> r.Get(f) == s.Get(f)
  {
    match a.value
    case None => s
    case Some(v) =>
      if !v.Obj? then s
      else
        match FieldNamed(a.name)
        case None => s
        case Some(f) => s.Set(f, StringEntries(v.fields))
  }

  /** The effect of the attributes of one block, taken in order. */
  function ApplyAttributes(s: Locals, attrs: seq<Attribute>): Locals
  {
    if attrs == [] then s
    else ApplyAttribute(ApplyAttributes(s, attrs[..|attrs| - 1]), attrs[|attrs| - 1])
  }

  /** The bodies of the top-level `locals` blocks, in source order. */
  function LocalsBodies(blocks: seq<Block>): (r: seq<Body>)
    ensures |r| <= |blocks|
    ensures forall body :: body in r <==> Block(LocalsBlockType, body) in blocks
  {
    if blocks == [] then []
    else
      (if blocks[0].kind == LocalsBlockType then [blocks[0].body] else [])
      + LocalsBodies(blocks[1..])
  }

  /** Processes the `locals` bodies in order; the first body whose attributes
      cannot be extracted ends the extraction with an error. */
  function ApplyBodies(s: Locals, bodies: seq<Body>): Result<Locals, Error>
  {
    if bodies == [] then Ok(s)
    else
      match ApplyBodies(s, bodies[..|bodies| - 1])
      case Err(e) => Err(e)
      case Ok(t) =>
        match bodies[|bodies| - 1]
        case AttributeErrors(d) => Err(AttributesFailed(d))
        case Attributes(attrs) => Ok(ApplyAttributes(t, attrs))
  }

  /** All attributes of the given bodies, body after body. */
  function BodyAttributes(bodies: seq<Body>): seq<Attribute>
  {
    if bodies == [] then []
    else
      BodyAttributes(bodies[..|bodies| - 1])
      + match bodies[|bodies| - 1]
        case AttributeErrors(_) => []
        case Attributes(attrs) => attrs
  }

  /** What the extractor returns for a parse result. */
  function Extract(doc: ParseResult): Result<Locals, Error>
  {
    match doc
    case SyntaxErrors(d) => Err(ParseFailed(d))
    case ContentErrors(d) => Err(ContentFailed(d))
    case Parsed(blocks) => ApplyBodies(Empty, LocalsBodies(blocks))
  }
}
