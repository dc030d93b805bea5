/**
 Row-name components of a table description and their log safety.

 A name component describes one part of a row name: its name, its value type, its byte
 order, and the partitioners that split the row space on it (a uniform partitioner over
 the component's type and/or an explicit list of values). It also records whether the
 component's *name* may be written to logs: `SAFE` means loggable, `UNSAFE` means not.
 Whoever does not say otherwise gets `UNSAFE`.

 A description is persisted as a protobuf message in which log safety is an optional
 field; hydrating a message whose field is absent yields `UNSAFE`.
 */
module NameComponents {
  import opened Wrappers

  datatype LogSafety = Safe | Unsafe

  /** A value type, known here only by its name (`UUID`, `BLOB`, ...). */
  datatype ValueType = ValueType(name: string)

  const Uuid: ValueType := ValueType("UUID")
  const Blob: ValueType := ValueType("BLOB")

  datatype ValueByteOrder = Ascending | Descending

  /** Partitions a row space evenly over the values of a type. */
  datatype UniformRowNamePartitioner = UniformRowNamePartitioner(valueType: ValueType)

  /** Partitions a row space at given values of a type. */
  datatype ExplicitRowNamePartitioner = ExplicitRowNamePartitioner(valueType: ValueType, values: set<string>)

  /** A partitioner as passed to `withPartitioners`. */
  datatype RowNamePartitioner =
    | Uniform(uniform: UniformRowNamePartitioner)
    | Explicit(explicit: ExplicitRowNamePartitioner)

  datatype NameComponentDescription = NameComponentDescription(
    componentName: string,
    valueType: ValueType,
    order: ValueByteOrder,
    uniformPartitioner: Option<UniformRowNamePartitioner>,
    explicitPartitioner: Option<ExplicitRowNamePartitioner>,
    logSafety: LogSafety)

  // ---------------------------------------------------------------------------
  // Construction and log safety
  // ---------------------------------------------------------------------------

  /** The component's name may be logged. */
  predicate IsNameLoggable(d: NameComponentDescription) {
    d.logSafety == Safe
  }

  /**
   A description built without a log safety: the five-argument constructor, with `None`
   standing for a null partitioner.
   */
  function Describe(name: string, valueType: ValueType, order: ValueByteOrder,
                    uniform: Option<UniformRowNamePartitioner>,
                    explicit: Option<ExplicitRowNamePartitioner>): (d: NameComponentDescription)
    ensures !IsNameLoggable(d)
    ensures d == DescribeWithSafety(name, valueType, order, uniform, explicit, Unsafe)
  {
    NameComponentDescription(name, valueType, order, uniform, explicit, Unsafe)
  }

  /** A description built with an explicit log safety, which it keeps. */
  function DescribeWithSafety(name: string, valueType: ValueType, order: ValueByteOrder,
                              uniform: Option<UniformRowNamePartitioner>,
                              explicit: Option<ExplicitRowNamePartitioner>,
                              logSafety: LogSafety): (d: NameComponentDescription)
    ensures d.logSafety == logSafety
    ensures IsNameLoggable(d) <==> logSafety == Safe
  {
    NameComponentDescription(name, valueType, order, uniform, explicit, logSafety)
  }

  /**
   The no-argument description: a component called `name` holding a `BLOB` in ascending
   order, partitioned uniformly, and not loggable.
   */
  function DefaultDescription(): (d: NameComponentDescription)
    ensures !IsNameLoggable(d)
    ensures WellFormed(d)
  {
    Describe("name", Blob, Ascending, Some(UniformRowNamePartitioner(Blob)), None)
  }

  /**
   The component keeps its name, type, order and log safety; it is partitioned uniformly
   when any uniform partitioner is given, and explicitly at the union of the values of the
   explicit partitioners given, when that union is not empty. Both partitioners are over
   the component's own type.
   */
  function WithPartitioners(d: NameComponentDescription, partitioners: seq<RowNamePartitioner>): (r: NameComponentDescription)
    ensures r.componentName == d.componentName && r.valueType == d.valueType && r.order == d.order
    ensures r.logSafety == d.logSafety
    ensures r.uniformPartitioner.Some? <==> exists i :: 0 <= i < |partitioners| && partitioners[i].Uniform?
    ensures r.explicitPartitioner.Some? ==> r.explicitPartitioner.value.values != {}
    ensures forall v :: v in ExplicitValues(r) <==>
      exists i :: 0 <= i < |partitioners| && partitioners[i].Explicit? && v in partitioners[i].explicit.values
    ensures WellFormed(r)
  {
    var values := ExplicitValuesOf(partitioners);
    NameComponentDescription(
      d.componentName, d.valueType, d.order,
      if HasUniform(partitioners) then Some(UniformRowNamePartitioner(d.valueType)) else None,
      if values == {} then None else Some(ExplicitRowNamePartitioner(d.valueType, values)),
      d.logSafety)
  }

  /** The values the component is explicitly partitioned at, none when it has no explicit partitioner. */
  function ExplicitValues(d: NameComponentDescription): set<string> {
    if d.explicitPartitioner.Some? then d.explicitPartitioner.value.values else {}
  }

  function HasUniform(partitioners: seq<RowNamePartitioner>): (b: bool)
    ensures b <==> exists i :: 0 <= i < |partitioners| && partitioners[i].Uniform?
  {
    if partitioners == [] then false
    else
      assert forall i :: 1 <= i < |partitioners| ==> partitioners[i] == partitioners[1..][i - 1];
      partitioners[0].Uniform? || HasUniform(partitioners[1..])
  }

  function ExplicitValuesOf(partitioners: seq<RowNamePartitioner>): (s: set<string>)
    ensures forall v :: v in s <==>
      exists i :: 0 <= i < |partitioners| && partitioners[i].Explicit? && v in partitioners[i].explicit.values
  {
    if partitioners == [] then {}
    else
      assert forall i :: 1 <= i < |partitioners| ==> partitioners[i] == partitioners[1..][i - 1];
      (if partitioners[0].Explicit? then partitioners[0].explicit.values else {})
        + ExplicitValuesOf(partitioners[1..])
  }

  // ---------------------------------------------------------------------------
  // Persistence
  // ---------------------------------------------------------------------------

  /** The persisted explicit partitioner. */
  datatype ExplicitPartitionerMessage = ExplicitPartitionerMessage(valueType: ValueType, values: set<string>)

  /**
   The persisted description. The message records only whether there is a uniform
   partitioner (an optional flag), since a uniform partitioner is determined by the
   component's type; log safety is an optional field.
   */
  datatype NameComponentMessage = NameComponentMessage(
    componentName: string,
    valueType: ValueType,
    order: ValueByteOrder,
    hasUniformPartitioner: Option<bool>,
    explicitPartitioner: Option<ExplicitPartitionerMessage>,
    logSafety: Option<LogSafety>)

  /**
   A description the message format can represent: its uniform partitioner, if any, is
   over the component's own type.
   */
  predicate WellFormed(d: NameComponentDescription) {
    d.uniformPartitioner.Some? ==> d.uniformPartitioner.value.valueType == d.valueType
  }

  /** `persistToProto`: every field is written, log safety included. */
  function PersistToProto(d: NameComponentDescription): (m: NameComponentMessage)
    ensures m.componentName == d.componentName && m.valueType == d.valueType && m.order == d.order
    ensures m.hasUniformPartitioner == Some(d.uniformPartitioner.Some?)
    ensures m.explicitPartitioner.Some? <==> d.explicitPartitioner.Some?
    ensures m.logSafety == Some(d.logSafety)
  {
    NameComponentMessage(
      d.componentName, d.valueType, d.order,
      Some(d.uniformPartitioner.Some?),
      match d.explicitPartitioner
        case None => None
        case Some(p) => Some(ExplicitPartitionerMessage(p.valueType, p.values)),
      Some(d.logSafety))
  }

  /**
   `hydrateFromProto`: a message without the uniform-partitioner flag gets a uniform
   partitioner over its type, and one without log safety is `UNSAFE`.
   */
  function HydrateFromProto(m: NameComponentMessage): (d: NameComponentDescription)
    ensures d.componentName == m.componentName && d.valueType == m.valueType && d.order == m.order
    ensures d.logSafety == m.logSafety.GetOr(Unsafe)
    ensures IsNameLoggable(d) <==> m.logSafety == Some(Safe)
    ensures d.uniformPartitioner.Some? <==> m.hasUniformPartitioner != Some(false)
    ensures d.explicitPartitioner.Some? <==> m.explicitPartitioner.Some?
    ensures WellFormed(d)
  {
    NameComponentDescription(
      m.componentName, m.valueType, m.order,
      if m.hasUniformPartitioner.GetOr(true) then Some(UniformRowNamePartitioner(m.valueType)) else None,
      match m.explicitPartitioner
        case None => None
        case Some(p) => Some(ExplicitRowNamePartitioner(p.valueType, p.values)),
      m.logSafety.GetOr(Unsafe))
  }

  /** Hydrating a persisted description gives back the description, log safety included. */
  lemma HydrateAfterPersist(d: NameComponentDescription)
    requires WellFormed(d)
    ensures HydrateFromProto(PersistToProto(d)) == d
    ensures HydrateFromProto(PersistToProto(d)).logSafety == d.logSafety
  {
    var r := HydrateFromProto(PersistToProto(d));
    assert r.explicitPartitioner == d.explicitPartitioner;
    assert r.uniformPartitioner == d.uniformPartitioner;
  }

  /**
   Persisting a hydrated message gives back the message when the message carries both
   optional fields; a message missing either comes back with its default filled in.
   */
  lemma PersistAfterHydrate(m: NameComponentMessage)
    ensures PersistToProto(HydrateFromProto(m)) == m
        <==> m.hasUniformPartitioner.Some? && m.logSafety.Some?
  {
    var r := PersistToProto(HydrateFromProto(m));
    assert r.explicitPartitioner == m.explicitPartitioner;
  }

  /**
   The round trip needs the well-formedness condition: a uniform partitioner over another
   type comes back over the component's own type.
   */
  lemma RoundTripNeedsOwnTypePartitioner()
    ensures var d := Describe("rowComponent", Uuid, Ascending, Some(UniformRowNamePartitioner(Blob)), None);
      !WellFormed(d) && HydrateFromProto(PersistToProto(d)) != d
  {
    var d := Describe("rowComponent", Uuid, Ascending, Some(UniformRowNamePartitioner(Blob)), None);
    assert HydrateFromProto(PersistToProto(d)).uniformPartitioner == Some(UniformRowNamePartitioner(Uuid));
  }

  // ---------------------------------------------------------------------------
  // The descriptions of the name component tests
  // ---------------------------------------------------------------------------

  const ComponentName: string := "rowComponent"

  /** `LOGGABILITY_UNSPECIFIED_DESCRIPTION`. */
  function UnspecifiedDescription(): NameComponentDescription {
    Describe(ComponentName, Uuid, Ascending, Some(UniformRowNamePartitioner(Uuid)), None)
  }

  /** `createWithSpecifiedLogSafety(logSafety)`. */
  function SpecifiedDescription(logSafety: LogSafety): NameComponentDescription {
    DescribeWithSafety(ComponentName, Uuid, Ascending, Some(UniformRowNamePartitioner(Uuid)), None, logSafety)
  }

  /**
   Each description of the tests survives persisting and hydrating with its log safety:
   `UNSAFE` for the default and the unspecified ones, and the given one for the others.
   */
  lemma TestDescriptionsRoundTrip(logSafety: LogSafety)
    ensures HydrateFromProto(PersistToProto(DefaultDescription())) == DefaultDescription()
    ensures HydrateFromProto(PersistToProto(DefaultDescription())).logSafety == Unsafe
    ensures HydrateFromProto(PersistToProto(UnspecifiedDescription())) == UnspecifiedDescription()
    ensures HydrateFromProto(PersistToProto(UnspecifiedDescription())).logSafety == Unsafe
    ensures HydrateFromProto(PersistToProto(SpecifiedDescription(logSafety))) == SpecifiedDescription(logSafety)
    ensures HydrateFromProto(PersistToProto(SpecifiedDescription(logSafety))).logSafety == logSafety
  {
    HydrateAfterPersist(DefaultDescription());
    HydrateAfterPersist(UnspecifiedDescription());
    HydrateAfterPersist(SpecifiedDescription(logSafety));
  }
}
