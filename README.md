# Locals extractor of cue-aws-utils

This project models the locals extractor of the `mage update` build helper in
`magefile.go`. The helper parses the upstream Terraform `main.tf` and walks its
top-level `locals` blocks. It keeps three attributes, `to_display_name`,
`to_fixed` and `to_short`, as string-to-string maps in a `LocalVars` value,
which it then hands to `cue import`.

The model is in five modules:

- `Wrappers` (`Wrappers.dfy`) holds the `Option` and `Result` datatypes used
  for evaluation outcomes and error returns.
- `Hcl` (`Hcl.dfy`) is the library boundary. A `ParseResult` is one of three
  things: syntax errors from `ParseHCL`, content errors from `PartialContent`,
  or the top-level blocks in source order. A block `Body` is either the errors
  from `JustAttributes` or the attributes in that block. An `Attribute` is a
  name with `Option<Value>`, where `None` means evaluation in the empty context
  reported errors. A `Value` is a small model of cty values: string, number,
  bool, object and tuple.
- `LocalsSpec` (`LocalsSpec.dfy`) gives the extractor's meaning as functions:
  - `StringEntries` decodes an object into a string map.
  - `ApplyAttribute` and `ApplyAttributes` give the effect of one attribute
    and of one block.
  - `LocalsBodies` selects the `locals` blocks, as the schema passed to
    `PartialContent` does.
  - `ApplyBodies` and `Extract` give the whole extraction, including its
    errors.
- `LocalsProperties` (`LocalsProperties.dfy`) proves what the extractor
  promises:
  - which object elements survive decoding;
  - that the last object-valued occurrence of a name decides its field, by
    full replacement;
  - that failing evaluations are skipped;
  - that a failure gives an error and no partial result;
  - that attribute order inside one block does not matter.
- `Magefile` (`Magefile.dfy`) is the imperative code:
  - the `LocalVars` class with its three map fields;
  - `UnmarshalObjectValue`, whose loop fills a map;
  - `ParseLocalsFromHcl`, which allocates the result and loops over the
    `locals` blocks;
  - `ProcessAttributes`, the inner loop over one block's attributes. It
    overwrites the fields of the result and skips attributes that fail to
    evaluate.

  Each method is proved against the `LocalsSpec` functions.

An attribute whose expression fails to evaluate is skipped entirely
(magefile.go:69-72). Its field keeps what it held before, and a map is never
partially populated. `ApplyAttribute` leaves every field unchanged when the
value is `None`.

## Model

| member | source | states |
|---|---|---|
| `Magefile.LocalVars.constructor` | magefile.go:53-57 | a new `LocalVars` holds three present, empty maps |
| `Magefile.UnmarshalObjectValue` | magefile.go:91-106 | a non-object value gives the empty map; for an object, the loop builds exactly the map of its string-valued elements in iteration order (`StringEntries`) |
| `Magefile.ParseLocalsFromHcl` | magefile.go:31-89 | returns a newly allocated `LocalVars` exactly when `Extract` succeeds, with the same three maps, and otherwise returns the same error |
| `Magefile.ProcessAttributes` | magefile.go:66-85 | after one block's attributes, the fields equal the old fields updated by each attribute in turn (`ApplyAttributes`) |
| `LocalsSpec.FieldNamed` | magefile.go:76-83 | an attribute name is routed to a field exactly when it is that field's name (`to_display_name`, `to_fixed`, `to_short`), so no two fields share a name and other names reach no field |
| `LocalsSpec.Locals.Set` | magefile.go:78-82 | assigning a field replaces that map and leaves the other two fields unchanged |
| `LocalsSpec.ApplyAttribute` | magefile.go:68-84 | an attribute sets field `f` to the decoding of its object exactly when its name is `f`'s name and it evaluated to an object; in every other case (evaluation error, non-object value, unrecognised name) no field changes |
| `LocalsSpec.LocalsBodies` | magefile.go:41-47 | a body is selected exactly when a top-level block of type `locals` has it |
| `LocalsProperties.StringEntriesSound` | magefile.go:98-103 | every decoded entry comes from an element whose value is that string under that key |
| `LocalsProperties.StringEntriesComplete` | magefile.go:98-103 | every string-valued element's key is decoded, and it maps to the value of the last string-valued element with that key (evaluation never gives an object duplicate keys, so for real inputs that element is the only one with the key) |
| `LocalsProperties.StringEntriesOfObject` | magefile.go:98-103 | for an object with distinct keys, every string element appears with its value, and every number, bool, object or tuple element is absent |
| `LocalsProperties.ApplyAttributesUnassigned` | magefile.go:66-85 | a field that no attribute of a run sets keeps its value |
| `LocalsProperties.ApplyAttributesLastAssignment` | magefile.go:60-86 | a field equals the decoding of the last attribute that sets it, a full replacement rather than a merge |
| `LocalsProperties.ApplyAttributesAppend` | magefile.go:60-86 | processing two runs of attributes one after the other is the same as processing their concatenation |
| `LocalsProperties.AttributeOrderIrrelevant` | magefile.go:67 | two orderings of one block's attributes with unique names give the same fields, so the map iteration order does not matter |
| `LocalsProperties.ApplyBodiesErrorPersists` | magefile.go:61-64 | once a block's attributes fail, no later block changes the outcome |
| `LocalsProperties.ApplyBodiesOutcome` | magefile.go:60-86 | the blocks fail exactly when one of them has attribute errors, and then with the first such block's diagnostics; otherwise the result is the effect of all their attributes in block order |
| `LocalsProperties.ExtractFails` | magefile.go:35-64 | parse and content errors are returned as such, and a parsed file fails exactly when one of its `locals` blocks has attribute errors |
| `LocalsProperties.ExtractField` | magefile.go:53-88 | on success, each field is empty when no attribute sets it, and otherwise is the decoding of the last object-valued occurrence of its name across the `locals` blocks |
| `LocalsProperties.ExtractEmpty` | magefile.go:53-88 | with no recognised object-valued attribute, the result is three empty maps |
| `LocalsSpec.Error.Message` | magefile.go:37-63 | each error's text is `failed to ` followed by the failing step and then the library's diagnostics unchanged (the messages at lines 37, 50 and 63) |
| `LocalsProperties.ErrorMessageInjective` | magefile.go:37-63 | two errors with the same text are the same error: the text tells which step failed and with which diagnostics |
| `LocalsProperties.DisplayNameExample` | magefile.go:74-78 | `to_display_name = { "a" = "b" }` yields that map alone, with the other two fields empty |
| `LocalsProperties.NonStringDroppedExample` | magefile.go:98-103 | the number element of `{ x = 1, z = "3" }` is dropped |
| `LocalsProperties.LaterBlockReplacesExample` | magefile.go:60-86 | a later block's `to_fixed` replaces the earlier map, and an unevaluable `to_short` is skipped |

## Left out

- `Update` (magefile.go:126-180) is left out because it is I/O and concurrency:
  - the HTTP fetch and its status check;
  - the pipe and the goroutine that JSON-encodes the result;
  - the `cue import` command;
  - the temporary file with its atomic replace.

  This includes the error message at magefile.go:175. It wraps the outer
  `err`, not the encoding error received on the channel.
- HCL parsing, `PartialContent`, `JustAttributes` and cty evaluation are
  library code. They appear only through their outcomes in `Hcl.ParseResult`,
  `Hcl.Body` and `Hcl.Attribute`. Diagnostics are kept as text.
- Go map iteration order over a block's attributes is not modelled. The
  attributes are a sequence, and `AttributeOrderIrrelevant` shows the order
  has no effect when names are unique.
- The cty key-type test in `unmarshalObjectValue` (magefile.go:100) is not
  modelled separately. Element keys of an object value are always cty strings,
  so object keys are plain strings in the model and only the value's type is
  tested.
- Null values have no constructor of their own. An untyped null, as in
  `to_fixed = null` or `{ a = null }`, is neither an object nor a string. It
  is skipped at magefile.go:75 or dropped at magefile.go:100, which any `Value`
  other than `Obj` or `Str` already models.
- A null of string type, as in `{ a = true ? null : "x" }`, passes the type
  test at magefile.go:100 and makes `AsString` panic at magefile.go:101. The
  model does not capture that panic.
- A null of object type under a recognised name, as in
  `to_fixed = true ? null : { a = "b" }`, passes magefile.go:75 and makes
  `ElementIterator` panic at magefile.go:98. The model does not capture that
  panic.
- A cty map or list, as produced by a conditional such as
  `true ? { a = "b" } : {}`, is neither an object nor a string. It is skipped
  at magefile.go:75 or dropped at magefile.go:100, which `Tuple` already
  models.
- Unknown values and cty sets are not modelled. Evaluation in an empty context
  with no functions does not produce them.
- The process-wide logger (magefile.go:29) and the license notice text
  (magefile.go:108-123) are left out because they are output formatting.
- The inner loop over a block's attributes is the separate method
  `ProcessAttributes`, not code inside `ParseLocalsFromHcl`. Its effect on
  the result object is the same.
