/** Properties of the locals extractor's specification: what survives the
    string-map decoding, which occurrence of an attribute decides a field,
    and when the extraction fails. */
module LocalsProperties {
  import opened Wrappers
  import opened Hcl
  import opened LocalsSpec

  // ---------------------------------------------------------------------------
  // Decoding an object into a string map
  // ---------------------------------------------------------------------------

  /** Element `i` is a string-valued element and no later element with the
      same key is string-valued. */
  predicate LastStringAt(fields: seq<(string, Value)>, i: int)
    requires 0 <= i < |fields|
  {
    fields[i].1.Str?
    && forall j :: i < j < |fields| && fields[j].1.Str? ==> fields[j].0 != fields[i].0
  }

  /** Every entry of the decoded map comes from an element whose value is the
      string the key is mapped to. */
  lemma {:induction false} StringEntriesSound(fields: seq<(string, Value)>)
    ensures forall k :: k in StringEntries(fields) ==>
      exists i :: 0 <= i < |fields| && fields[i] == (k, Str(StringEntries(fields)[k]))
  {
    if fields != [] {
      var n := |fields| - 1;
      var init := fields[..n];
      StringEntriesSound(init);
      forall k | k in StringEntries(fields)
        ensures exists i :: 0 <= i < |fields| && fields[i] == (k, Str(StringEntries(fields)[k]))
      {
        if fields[n].1.Str? && fields[n].0 == k {
          assert fields[n] == (k, Str(StringEntries(fields)[k]));
        } else {
          var i :| 0 <= i < |init| && init[i] == (k, Str(StringEntries(init)[k]));
          assert fields[i] == init[i];
        }
      }
    }
  }

  /** Every string-valued element's key is in the decoded map, and the key is
      mapped to the value of its last string-valued element. */
  lemma {:induction false} StringEntriesComplete(fields: seq<(string, Value)>)
    ensures forall i :: 0 <= i < |fields| && fields[i].1.Str? ==> fields[i].0 in StringEntries(fields)
    ensures forall i :: 0 <= i < |fields| && LastStringAt(fields, i) ==>
      StringEntries(fields)[fields[i].0] == fields[i].1.s
  {
    if fields != [] {
      var n := |fields| - 1;
      var init := fields[..n];
      StringEntriesComplete(init);
      forall i | 0 <= i < |fields| && fields[i].1.Str?
        ensures fields[i].0 in StringEntries(fields)
        ensures LastStringAt(fields, i) ==> StringEntries(fields)[fields[i].0] == fields[i].1.s
      {
        if i < n {
          assert init[i] == fields[i];
          if LastStringAt(fields, i) {
            assert LastStringAt(init, i);
          }
        }
      }
    }
  }

  /** For an object (whose keys are distinct) the decoded map holds exactly
      the string-valued elements: those appear with their value, all others
      (numbers, booleans, objects, tuples) are absent. */
  lemma StringEntriesOfObject(fields: seq<(string, Value)>)
    requires KeysDistinct(fields)
    ensures forall i :: 0 <= i < |fields| && fields[i].1.Str? ==>
      fields[i].0 in StringEntries(fields) && StringEntries(fields)[fields[i].0] == fields[i].1.s
    ensures forall i :: 0 <= i < |fields| && !fields[i].1.Str? ==> fields[i].0 !in StringEntries(fields)
  {
    StringEntriesComplete(fields);
    StringEntriesSound(fields);
    forall i | 0 <= i < |fields| && fields[i].1.Str?
      ensures LastStringAt(fields, i)
    {
    }
  }

  // ---------------------------------------------------------------------------
  // Which attribute decides a field
  // ---------------------------------------------------------------------------

  /** Attribute `i` sets field `f` and no later attribute does. */
  predicate LastAssignment(attrs: seq<Attribute>, i: int, f: Field)
    requires 0 <= i < |attrs|
  {
    Assigns(attrs[i], f) && forall j :: i < j < |attrs| ==> !Assigns(attrs[j], f)
  }

  /** A field that no attribute sets keeps its value. */
  lemma {:induction false} ApplyAttributesUnassigned(s: Locals, attrs: seq<Attribute>, f: Field)
    requires forall i :: 0 <= i < |attrs| ==> !Assigns(attrs[i], f)
    ensures ApplyAttributes(s, attrs).Get(f) == s.Get(f)
  {
    if attrs != [] {
      var n := |attrs| - 1;
      var init := attrs[..n];
      assert forall i :: 0 <= i < n ==> init[i] == attrs[i];
      ApplyAttributesUnassigned(s, init, f);
    }
  }

  /** A field set by some attribute holds the decoding of the last object
      that sets it, replacing the old map wholesale. */
  lemma {:induction false} ApplyAttributesLastAssignment(s: Locals, attrs: seq<Attribute>, f: Field, i: nat)
    requires i < |attrs| && LastAssignment(attrs, i, f)
    ensures ApplyAttributes(s, attrs).Get(f) == StringEntries(attrs[i].value.value.fields)
  {
    var n := |attrs| - 1;
    var init := attrs[..n];
    if i < n {
      assert init[i] == attrs[i];
      forall j | i < j < n
        ensures !Assigns(init[j], f)
      {
        assert init[j] == attrs[j];
      }
      ApplyAttributesLastAssignment(s, init, f, i);
    }
  }

  /** Processing attributes in two runs is processing them in one. */
  lemma {:induction false} ApplyAttributesAppend(s: Locals, xs: seq<Attribute>, ys: seq<Attribute>)
    ensures ApplyAttributes(s, xs + ys) == ApplyAttributes(ApplyAttributes(s, xs), ys)
  {
    if ys != [] {
      var n := |ys| - 1;
      ApplyAttributesAppend(s, xs, ys[..n]);
      assert (xs + ys)[..|xs + ys| - 1] == xs + ys[..n];
      assert (xs + ys)[|xs + ys| - 1] == ys[n];
      assert ApplyAttributes(s, xs + ys)
        == ApplyAttribute(ApplyAttributes(s, xs + ys[..n]), ys[n]);
      assert ApplyAttributes(ApplyAttributes(s, xs), ys)
        == ApplyAttribute(ApplyAttributes(ApplyAttributes(s, xs), ys[..n]), ys[n]);
    } else {
      assert xs + ys == xs;
    }
  }

  /** The order of a block's attributes does not matter: two listings of the
      same attributes with unique names give the same fields. */
  lemma AttributeOrderIrrelevant(s: Locals, xs: seq<Attribute>, ys: seq<Attribute>)
    requires NamesDistinct(xs) && NamesDistinct(ys)
    requires forall a :: a in xs <==> a in ys
    ensures ApplyAttributes(s, xs) == ApplyAttributes(s, ys)
  {
    forall f: Field
      ensures ApplyAttributes(s, xs).Get(f) == ApplyAttributes(s, ys).Get(f)
    {
      if i :| 0 <= i < |xs| && Assigns(xs[i], f) {
        assert LastAssignment(xs, i, f);
        assert xs[i] in ys;
        var j :| 0 <= j < |ys| && ys[j] == xs[i];
        assert LastAssignment(ys, j, f);
        ApplyAttributesLastAssignment(s, xs, f, i);
        ApplyAttributesLastAssignment(s, ys, f, j);
      } else {
        forall j | 0 <= j < |ys|
          ensures !Assigns(ys[j], f)
        {
          assert ys[j] in xs;
        }
        ApplyAttributesUnassigned(s, xs, f);
        ApplyAttributesUnassigned(s, ys, f);
      }
    }
    var l, r := ApplyAttributes(s, xs), ApplyAttributes(s, ys);
    assert l.Get(ToDisplayName) == r.Get(ToDisplayName);
    assert l.Get(ToFixed) == r.Get(ToFixed);
    assert l.Get(ToShort) == r.Get(ToShort);
  }

  // ---------------------------------------------------------------------------
  // Processing the locals blocks
  // ---------------------------------------------------------------------------

  /** Once the bodies up to `n` have failed, the later bodies are not looked at. */
  lemma {:induction false} ApplyBodiesErrorPersists(s: Locals, bodies: seq<Body>, n: nat)
    requires n <= |bodies|
    requires ApplyBodies(s, bodies[..n]).Err?
    ensures ApplyBodies(s, bodies) == ApplyBodies(s, bodies[..n])
  {
    if n < |bodies| {
      var m := |bodies| - 1;
      assert bodies[..m][..n] == bodies[..n];
      ApplyBodiesErrorPersists(s, bodies[..m], n);
    } else {
      assert bodies[..n] == bodies;
    }
  }

  /** The bodies fail exactly when one of them has attribute errors, and then
      with the diagnostics of the first such body; otherwise the result is the
      effect of all their attributes, body after body. */
  lemma {:induction false} ApplyBodiesOutcome(s: Locals, bodies: seq<Body>)
    ensures ApplyBodies(s, bodies).Ok? <==> forall i :: 0 <= i < |bodies| ==> bodies[i].Attributes?
    ensures ApplyBodies(s, bodies).Ok? ==>
      ApplyBodies(s, bodies).value == ApplyAttributes(s, BodyAttributes(bodies))
    ensures forall i ::
      (0 <= i < |bodies| && bodies[i].AttributeErrors? && forall j :: 0 <= j < i ==> bodies[j].Attributes?)
      ==> ApplyBodies(s, bodies) == Err(AttributesFailed(bodies[i].diag))
  {
    if bodies != [] {
      var n := |bodies| - 1;
      var init := bodies[..n];
      ApplyBodiesOutcome(s, init);
      assert forall i :: 0 <= i < n ==> init[i] == bodies[i];
      if ApplyBodies(s, init).Ok? && bodies[n].Attributes? {
        ApplyAttributesAppend(s, BodyAttributes(init), bodies[n].attrs);
      }
    }
  }

  // ---------------------------------------------------------------------------
  // The extractor as a whole
  // ---------------------------------------------------------------------------

  /** The attributes of all `locals` blocks of a parsed file, in block order. */
  function LocalsAttributes(blocks: seq<Block>): seq<Attribute>
  {
    BodyAttributes(LocalsBodies(blocks))
  }

  /** A parse or content error is returned as is; a parsed file fails exactly
      when one of its `locals` blocks has attribute errors. There is no
      partial result. */
  lemma ExtractFails(doc: ParseResult)
    ensures doc.SyntaxErrors? ==> Extract(doc) == Err(ParseFailed(doc.diag))
    ensures doc.ContentErrors? ==> Extract(doc) == Err(ContentFailed(doc.diag))
    ensures doc.Parsed? ==>
      (Extract(doc).Err? <==> exists b :: b in doc.blocks && b.kind == LocalsBlockType && b.body.AttributeErrors?)
  {
    if doc.Parsed? {
      var bodies := LocalsBodies(doc.blocks);
      ApplyBodiesOutcome(Empty, bodies);
      if Extract(doc).Err? {
        var i :| 0 <= i < |bodies| && !bodies[i].Attributes?;
        assert Block(LocalsBlockType, bodies[i]) in doc.blocks;
      } else {
        forall b | b in doc.blocks && b.kind == LocalsBlockType
          ensures b.body.Attributes?
        {
          assert b == Block(LocalsBlockType, b.body);
          assert b.body in bodies;
        }
      }
    }
  }

  /** Each field of a successful result is empty when no attribute of the
      `locals` blocks sets it, and otherwise is the decoding of the last
      object-valued occurrence of its name across the blocks. */
  lemma ExtractField(doc: ParseResult, l: Locals, f: Field)
    requires Extract(doc) == Ok(l)
    ensures doc.Parsed?
    ensures var attrs := LocalsAttributes(doc.blocks);
      (forall i :: 0 <= i < |attrs| ==> !Assigns(attrs[i], f)) ==> l.Get(f) == map[]
    ensures var attrs := LocalsAttributes(doc.blocks);
      forall i :: 0 <= i < |attrs| && LastAssignment(attrs, i, f) ==>
        l.Get(f) == StringEntries(attrs[i].value.value.fields)
  {
    var attrs := LocalsAttributes(doc.blocks);
    ApplyBodiesOutcome(Empty, LocalsBodies(doc.blocks));
    if forall i :: 0 <= i < |attrs| ==> !Assigns(attrs[i], f) {
      ApplyAttributesUnassigned(Empty, attrs, f);
    }
    forall i | 0 <= i < |attrs| && LastAssignment(attrs, i, f)
      ensures l.Get(f) == StringEntries(attrs[i].value.value.fields)
    {
      ApplyAttributesLastAssignment(Empty, attrs, f, i);
    }
  }

  /** Without a recognised, object-valued attribute the three maps are
      present and empty. */
  lemma ExtractEmpty(doc: ParseResult, l: Locals)
    requires Extract(doc) == Ok(l)
    requires forall a, f :: a in LocalsAttributes(doc.blocks) ==> !Assigns(a, f)
    ensures l == Locals(map[], map[], map[])
  {
    ExtractField(doc, l, ToDisplayName);
    ExtractField(doc, l, ToFixed);
    ExtractField(doc, l, ToShort);
  }

  /** The error text identifies the error: different failing steps, or the
      same step with different diagnostics, never give the same message. */
  lemma ErrorMessageInjective(e1: Error, e2: Error)
    requires e1.Message() == e2.Message()
    ensures e1 == e2
  {
    var m := e1.Message();
    assert m[10] == e2.Message()[10];
    assert m[14] == e2.Message()[14];
    assert e1.ParseFailed? <==> e2.ParseFailed?;
    assert e1.ContentFailed? <==> e2.ContentFailed?;
    assert |e1.diag| == |e2.diag|;
    assert e1.diag == m[|m| - |e1.diag|..] == e2.diag;
  }

  // ---------------------------------------------------------------------------
  // Worked examples
  // ---------------------------------------------------------------------------

  /** `locals { to_display_name = { "a" = "b" } }` yields that map alone. */
  lemma DisplayNameExample()
    ensures Extract(Parsed([Block("locals", Attributes([
      Attribute("to_display_name", Some(Obj([("a", Str("b"))])))]))]))
      == Ok(Locals(map["a" := "b"], map[], map[]))
  {
  }

  /** `{ x = 1, z = "3" }` decodes to `{ z = "3" }`: the number is dropped. */
  lemma NonStringDroppedExample()
    ensures StringEntries([("x", Num(1.0)), ("z", Str("3"))]) == map["z" := "3"]
  {
  }

  /** A later `locals` block replaces the earlier map instead of merging into
      it, and an attribute whose evaluation fails is skipped. */
  lemma LaterBlockReplacesExample()
    ensures Extract(Parsed([
      Block("locals", Attributes([Attribute("to_fixed", Some(Obj([("x", Str("1"))])))])),
      Block("locals", Attributes([
        Attribute("to_fixed", Some(Obj([("z", Str("3"))]))),
        Attribute("to_short", None)]))]))
      == Ok(Locals(map[], map["z" := "3"], map[]))
  {
    var first: seq<(string, Value)> := [("x", Str("1"))];
    var second: seq<(string, Value)> := [("z", Str("3"))];
    var a0 := Attribute("to_fixed", Some(Obj(first)));
    var a1 := Attribute("to_fixed", Some(Obj(second)));
    var a2 := Attribute("to_short", None);
    var b0, b1 := Attributes([a0]), Attributes([a1, a2]);
    assert LocalsBodies([Block("locals", b0), Block("locals", b1)]) == [b0, b1];
    assert [b0, b1][..1] == [b0];
    assert [b0][..0] == [];
    assert first[..0] == [] && second[..0] == [];
    assert [a0][..0] == [];
    var t := ApplyAttribute(Empty, a0);
    assert ApplyAttributes(Empty, [a0]) == t;
    assert ApplyBodies(Empty, [b0][..0]) == Ok(Empty);
    assert ApplyBodies(Empty, [b0]) == Ok(t);
    assert [a1, a2][..1] == [a1];
    assert [a1][..0] == [];
    assert ApplyAttributes(t, [a1]) == ApplyAttribute(t, a1);
    assert ApplyAttributes(t, [a1, a2]) == ApplyAttribute(ApplyAttribute(t, a1), a2);
  }
}
