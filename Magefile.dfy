/** The locals extractor of the build helper: `parseLocalsFromHCL` fills a
    freshly allocated `LocalVars` while walking the `locals` blocks, and
    `unmarshalObjectValue` turns an object value into a string map. */
module Magefile {
  import opened Wrappers
  import opened Hcl
  import opened LocalsSpec
  import opened LocalsProperties

  /** The three string maps extracted from the `locals` blocks. */
  class LocalVars {
    var toDisplayName: map<string, string>
    var toFixed: map<string, string>
    var toShort: map<string, string>

    /** The current value of the three fields. */
    function Snapshot(): Locals
      reads this
    {
      Locals(toDisplayName, toFixed, toShort)
    }

    /** Three present, empty maps. */
    constructor ()
      ensures Snapshot() == Empty
    {
      toDisplayName, toFixed, toShort := map[], map[], map[];
    }
  }

  /** Keeps the elements of an object whose value is a string; anything that
      is not an object gives the empty map. */
  method UnmarshalObjectValue(val: Value) returns (result: map<string, string>)
    ensures !val.Obj? ==> result == map[]
    ensures val.Obj? ==> result == StringEntries(val.fields)
  {
    result := map[];
    if !val.Obj? {
      return;
    }
    var fields := val.fields;
    var i := 0;
    while i < |fields|
      invariant 0 <= i <= |fields|
      invariant result == StringEntries(fields[..i])
    {
      var (key, value) := fields[i];
      assert fields[..i + 1][..i] == fields[..i];
      if value.Str? {
        result := result[key := value.s];
      }
      i := i + 1;
    }
    assert fields[..i] == fields;
  }

  /** Extracts the three recognised `locals` attributes from a parse result.
      An error from the parser, from the schema match or from reading a
      block's attributes is returned with no `LocalVars` at all. */
  method ParseLocalsFromHcl(doc: ParseResult) returns (r: Result<LocalVars, Error>)
    ensures r.Ok? ==> fresh(r.value)
    ensures r.Ok? ==> Extract(doc) == Ok(r.value.Snapshot())
    ensures r.Err? ==> Extract(doc) == Err(r.error)
  {
    if doc.SyntaxErrors? {
      return Err(ParseFailed(doc.diag));
    }
    if doc.ContentErrors? {
      return Err(ContentFailed(doc.diag));
    }
    var bodies := LocalsBodies(doc.blocks);
    var result := new LocalVars();
    var b := 0;
    while b < |bodies|
      invariant 0 <= b <= |bodies|
      invariant ApplyBodies(Empty, bodies[..b]) == Ok(result.Snapshot())
    {
      assert bodies[..b + 1][..b] == bodies[..b];
      var body := bodies[b];
      if body.AttributeErrors? {
        ApplyBodiesErrorPersists(Empty, bodies, b + 1);
        return Err(AttributesFailed(body.diag));
      }
      ProcessAttributes(result, body.attrs);
      b := b + 1;
    }
    assert bodies[..b] == bodies;
    return Ok(result);
  }

  /** The inner loop of `parseLocalsFromHCL` over one block's attributes:
      an attribute that fails to evaluate is skipped, and an object-valued
      attribute with a recognised name replaces its field. */
  method ProcessAttributes(result: LocalVars, attrs: seq<Attribute>)
    modifies result
    ensures result.Snapshot() == ApplyAttributes(old(result.Snapshot()), attrs)
  {
    var i := 0;
    while i < |attrs|
      invariant 0 <= i <= |attrs|
      invariant result.Snapshot() == ApplyAttributes(old(result.Snapshot()), attrs[..i])
    {
      var attr := attrs[i];
      assert attrs[..i + 1] == attrs[..i] + [attr];
      ghost var before := result.Snapshot();
      if attr.value.None? {
        i := i + 1;
        continue;
      }
      var val := attr.value.value;
      if val.Obj? {
        if attr.name == "to_display_name" {
          result.toDisplayName := UnmarshalObjectValue(val);
        } else if attr.name == "to_fixed" {
          result.toFixed := UnmarshalObjectValue(val);
        } else if attr.name == "to_short" {
          result.toShort := UnmarshalObjectValue(val);
        }
      }
      assert result.Snapshot() == ApplyAttribute(before, attr);
      i := i + 1;
    }
    assert attrs[..i] == attrs;
  }
}
