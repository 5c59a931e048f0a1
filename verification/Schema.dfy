/** Property schemas: what a history row holds, and where. */
module Schema {
  datatype PropKind = Bool | I32 | I64 | F32 | F64 | Vec3 | Quat | Vec2 | Basis | Transform {
    /** Bytes this property occupies in a history row. */
    function Stride(): (n: nat)
      ensures n > 0
    {
      match this
      case Bool => 1
      case I32 => 4
      case F32 => 4
      case I64 => 8
      case F64 => 8
      case Vec2 => 8
      case Vec3 => 12
      case Quat => 16
      case Basis => 36
      case Transform => 48
    }
  }

  datatype QuantKind = Lossless | Ss3 | Half {
    predicate ValidFor(kind: PropKind) {
      match this
      case Lossless => true
      case Ss3 => kind.Quat? || kind.Basis?
      case Half => kind.Vec3? || kind.Vec2? || kind.F32?
    }
  }

  datatype PropRole = State | Input | Cosmetic

  datatype PropSchema = PropSchema(name: string, kind: PropKind, role: PropRole, offset: nat, quant: QuantKind) {
    function End(): nat {
      offset + kind.Stride()
    }
  }

  /** Bytes the first `count` properties occupy. */
  function StrideOf(props: seq<PropSchema>, count: nat): nat
    requires count <= |props|
  {
    if count == 0 then 0 else StrideOf(props, count - 1) + props[count - 1].kind.Stride()
  }

  /** Each property starts where those before it end, and is quantized only as its kind allows. */
  ghost predicate LaidOut(props: seq<PropSchema>) {
    forall i :: 0 <= i < |props| ==> Placed(props, i)
  }

  ghost predicate Placed(props: seq<PropSchema>, i: nat)
    requires i < |props|
  {
    props[i].offset == StrideOf(props, i) && props[i].quant.ValidFor(props[i].kind)
  }

  function RowStride(props: seq<PropSchema>): nat {
    StrideOf(props, |props|)
  }

  lemma {:induction false} StrideOfPrefix(props: seq<PropSchema>, more: seq<PropSchema>, count: nat)
    requires count <= |props|
    ensures StrideOf(props + more, count) == StrideOf(props, count)
  {
    if count > 0 {
      StrideOfPrefix(props, more, count - 1);
    }
  }

  lemma {:induction false} OffsetsAscend(props: seq<PropSchema>, i: nat, j: nat)
    requires i <= j <= |props|
    ensures StrideOf(props, i) <= StrideOf(props, j)
    decreases j
  {
    if i < j {
      OffsetsAscend(props, i, j - 1);
    }
  }

  lemma EndIsNextOffset(props: seq<PropSchema>, i: nat)
    requires LaidOut(props) && i < |props|
    ensures props[i].End() == StrideOf(props, i + 1) <= RowStride(props)
  {
    assert Placed(props, i);
    OffsetsAscend(props, i + 1, |props|);
  }

  /** No two properties overlap. */
  lemma PropertiesAreDisjoint(props: seq<PropSchema>, i: nat, j: nat)
    requires LaidOut(props) && i < j < |props|
    ensures props[i].End() <= props[j].offset
  {
    assert Placed(props, i) && Placed(props, j);
    OffsetsAscend(props, i + 1, j);
  }

  /** Every byte of a row belongs to a property. */
  lemma {:induction false} PropertiesCover(props: seq<PropSchema>, count: nat, at: nat) returns (i: nat)
    requires LaidOut(props) && count <= |props| && at < StrideOf(props, count)
    ensures i < count && props[i].offset <= at < props[i].End()
    decreases count
  {
    if at < StrideOf(props, count - 1) {
      i := PropertiesCover(props, count - 1, at);
    } else {
      i := count - 1;
      assert Placed(props, i);
    }
  }

  lemma Extends(props: seq<PropSchema>, prop: PropSchema)
    requires LaidOut(props) && prop.offset == RowStride(props) && prop.quant.ValidFor(prop.kind)
    ensures LaidOut(props + [prop]) && RowStride(props + [prop]) == prop.End()
  {
    forall i | 0 <= i <= |props| ensures i < |props| + 1 && Placed(props + [prop], i) {
      StrideOfPrefix(props, [prop], i);
      if i < |props| { assert Placed(props, i); }
    }
    StrideOfPrefix(props, [prop], |props|);
  }

  class SchemaBuilder {
    var props: seq<PropSchema>
    var stride: nat

    ghost predicate Valid()
      reads this
    {
      LaidOut(props) && stride == RowStride(props)
    }

    constructor ()
      ensures Valid() && props == []
    {
      props, stride := [], 0;
    }

    /** Append a property; a quantizer its kind does not allow falls back to lossless. */
    method PushQuantized(name: string, kind: PropKind, role: PropRole, quant: QuantKind) returns (index: nat)
      requires Valid()
      modifies this
      ensures Valid() && index == |old(props)|
      ensures props
           == old(props) + [PropSchema(name, kind, role, old(stride), if quant.ValidFor(kind) then quant else Lossless)]
    {
      ghost var was := props;
      var settled := if quant.ValidFor(kind) then quant else Lossless;
      index := |props|;
      var prop := PropSchema(name, kind, role, stride, settled);
      Extends(was, prop);
      props := props + [prop];
      stride := stride + kind.Stride();
    }

  }
}
