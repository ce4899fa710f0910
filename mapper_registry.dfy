/** The mapper registry (mapper_registry.go) over the typed mapper interface (mapper.go).
    A Go type parameter `T` is represented by its type name; a `*T` by its payload. */
module MapperRegistries {
  import opened Results
  import opened Records

  /** NodeMapper[T]: converts a domain value of one type to a node aggregate and back. */
  datatype NodeMapper = NodeMapper(toNode: Payload -> Result<Node>, fromNode: Node -> Result<Payload>)

  /** erasedMapper[T]: a NodeMapper[T] behind the untyped `anyMapper` interface. */
  datatype ErasedMapper = ErasedMapper(typ: TypeName, mapper: NodeMapper) {

    /** toNode: rejects a value whose dynamic type is not `*T`, and otherwise calls the
        wrapped ToNode with it. */
    function ToNode(v: Any): (r: Result<Node>)
      ensures v.typ != typ ==> r == Err(UnexpectedType(typ, v.typ))
      ensures v.typ == typ ==> r == mapper.toNode(v.payload)
    {
      if v.typ != typ then Err(UnexpectedType(typ, v.typ)) else mapper.toNode(v.payload)
    }

    /** fromNode: the wrapped FromNode result, boxed as an `any` whose dynamic type is `*T`. */
    function FromNode(n: Node): (r: Result<Any>)
      ensures r.Ok? <==> mapper.fromNode(n).Ok?
      ensures r.Ok? ==> r.value == Any(typ, mapper.fromNode(n).value) && r.value.typ == typ
      ensures r.Err? ==> r.error == mapper.fromNode(n).error
    {
      match mapper.fromNode(n)
      case Ok(p) => Ok(Any(typ, p))
      case Err(e) => Err(e)
    }
  }

  /** Erasure is transparent: a value produced by the erased fromNode always passes the erased
      toNode's type check, so the erased pair converts exactly as the typed pair does. */
  lemma ErasedRoundTrip(e: ErasedMapper, n: Node)
    requires e.FromNode(n).Ok?
    ensures e.ToNode(e.FromNode(n).value) == e.mapper.toNode(e.mapper.fromNode(n).value)
  {
  }

  /** `forType` on the registry's table: the mapper for `t`, or the lookup error. */
  function Lookup(byType: map<TypeName, ErasedMapper>, t: TypeName): (r: Result<ErasedMapper>)
    ensures r.Err? <==> t !in byType
    ensures r.Err? ==> r.error == NoMapper(t)
    ensures r.Ok? ==> r.value == byType[t]
  {
    if t in byType then Ok(byType[t]) else Err(NoMapper(t))
  }

  /** A new registry has no entries, so every lookup fails. */
  lemma LookupEmpty(t: TypeName)
    ensures Lookup(map[], t) == Err(NoMapper(t))
  {
  }

  /** After registering `t`, looking `t` up yields the mapper just registered (overwriting any
      earlier one), and the lookup of every other type is what it was. */
  lemma LookupAfterRegister(byType: map<TypeName, ErasedMapper>, t: TypeName, m: NodeMapper, u: TypeName)
    ensures Lookup(byType[t := ErasedMapper(t, m)], t) == Ok(ErasedMapper(t, m))
    ensures u != t ==> Lookup(byType[t := ErasedMapper(t, m)], u) == Lookup(byType, u)
  {
  }

  /** MapperRegistry: the type-keyed table `byType`. */
  class MapperRegistry {
    var byType: map<TypeName, ErasedMapper>

    /** Every entry was registered under its own type, as RegisterMapper does. */
    ghost predicate Valid()
      reads this
    {
      forall t :: t in byType ==> byType[t].typ == t
    }

    /** NewMapperRegistry. */
    constructor ()
      ensures Valid() && byType == map[]
    {
      byType := map[];
    }

    /** forType: the mapper registered for `t`, or "no mapper registered for type". */
    function ForType(t: TypeName): (r: Result<ErasedMapper>)
      reads this
      requires Valid()
      ensures r.Err? <==> t !in byType
      ensures r.Err? ==> r.error == NoMapper(t)
      ensures r.Ok? ==> r.value == byType[t] && r.value.typ == t
    {
      Lookup(byType, t)
    }
  }

  /** RegisterMapper[T]: stores an erasedMapper for `t`, replacing an earlier one, and returns
      the same registry. */
  method RegisterMapper(registry: MapperRegistry, t: TypeName, mapper: NodeMapper) returns (r: MapperRegistry)
    requires registry.Valid()
    modifies registry
    ensures r == registry && registry.Valid()
    ensures registry.byType == old(registry.byType)[t := ErasedMapper(t, mapper)]
    ensures registry.ForType(t) == Ok(ErasedMapper(t, mapper))
    ensures forall u :: u != t ==> registry.ForType(u) == Lookup(old(registry.byType), u)
  {
    registry.byType := registry.byType[t := ErasedMapper(t, mapper)];
    r := registry;
  }
}
