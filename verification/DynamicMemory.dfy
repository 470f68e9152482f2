/**
  The memory image that the parser hands to the Cairo program. Nested values are written into numbered
  segments that point to each other; `Assemble` lays the segments out one after the other and relocates
  the pointers; the loader adds a base address. Chasing the pointers reads back what was written.
*/
module DynamicMemory {
  import opened Wrappers

  datatype MemoryEntry = Value(value: nat) | Pointer(segment: nat)

  type Memories = seq<seq<MemoryEntry>>

  /** What a writer writes: numbers and arrays, one after the other, where arrays nest. */
  datatype Fields = Done | Number(value: nat, rest: Fields) | Array(elements: Fields, rest: Fields)
  {
    function Length(): nat {
      match this
      case Done => 0
      case Number(_, rest) => 1 + rest.Length()
      case Array(_, rest) => 1 + rest.Length()
    }
  }

  // ------------------------------------------------------------------------
  // Writing
  // ------------------------------------------------------------------------

  function Pushed(m: Memories, segment: nat, e: MemoryEntry): (r: Memories)
    requires segment < |m|
    ensures |r| == |m|
  {
    m[segment := m[segment] + [e]]
  }

  /** The segments after `fields` are written into one of them; each array gets the next free segment. */
  function Written(m: Memories, segment: nat, fields: Fields): (r: Memories)
    requires segment < |m|
    ensures |r| >= |m|
    decreases fields
  {
    match fields
    case Done => m
    case Number(v, rest) => Written(Pushed(m, segment, Value(v)), segment, rest)
    case Array(elements, rest) =>
      var grown := Pushed(m, segment, Pointer(|m|)) + [[]];
      Written(Written(grown, |m|, elements), segment, rest)
  }

  class Writer {
    var memories: Memories

    constructor ()
      ensures memories == [[]]
    {
      memories := [[]];
    }

    method WriteEntry(segment: nat, e: MemoryEntry)
      requires segment < |memories|
      modifies this
      ensures memories == Pushed(old(memories), segment, e)
    {
      memories := memories[segment := memories[segment] + [e]];
    }

    /** A fresh segment, and a pointer to it in the given one. */
    method Alloc(segment: nat) returns (child: nat)
      requires segment < |memories|
      modifies this
      ensures child == old(|memories|)
      ensures memories == Pushed(old(memories), segment, Pointer(child)) + [[]]
    {
      child := |memories|;
      WriteEntry(segment, Pointer(child));
      memories := memories + [[]];
    }

    method Write(segment: nat, fields: Fields)
      requires segment < |memories|
      modifies this
      ensures memories == Written(old(memories), segment, fields)
      decreases fields
    {
      match fields {
        case Done =>
        case Number(v, rest) =>
          WriteEntry(segment, Value(v));
          Write(segment, rest);
        case Array(elements, rest) =>
          var child := Alloc(segment);
          Write(child, elements);
          Write(segment, rest);
      }
    }

    method Assemble() returns (memory: seq<Cell>)
      ensures memory == Assembled(memories)
    {
      var concatenated: seq<MemoryEntry> := [];
      var pointersMap: seq<nat> := [];
      for s := 0 to |memories|
        invariant concatenated == Concat(memories[..s]) && |pointersMap| == s
        invariant forall t :: 0 <= t < s ==> pointersMap[t] == Offset(memories, t)
      {
        assert memories[..s + 1][..s] == memories[..s];
        pointersMap := pointersMap + [|concatenated|];
        concatenated := concatenated + memories[s];
      }
      assert memories[..|memories|] == memories;
      memory := [];
      for k := 0 to |concatenated|
        invariant memory == Assembled(memories)[..k]
      {
        var entry := concatenated[k];
        var cell;
        match entry {
          case Value(v) => cell := Felt(v);
          case Pointer(segment) => cell := Address(if segment < |pointersMap| then pointersMap[segment] else 0);
        }
        memory := memory + [cell];
      }
    }
  }

  // ------------------------------------------------------------------------
  // Assembling and loading
  // ------------------------------------------------------------------------

  /** A cell of the image: a hexadecimal number, or a decimal offset. */
  datatype Cell = Felt(value: nat) | Address(offset: nat)

  function Concat(m: Memories): seq<MemoryEntry> {
    if m == [] then [] else Concat(m[..|m| - 1]) + m[|m| - 1]
  }

  /** Where segment `s` starts. */
  function Offset(m: Memories, s: nat): nat
    requires s <= |m|
  {
    |Concat(m[..s])|
  }

  /** A pointer becomes its segment's offset. (Segments that do not exist are never pointed to.) */
  function CellOf(m: Memories, e: MemoryEntry): Cell {
    match e
    case Value(v) => Felt(v)
    case Pointer(s) => Address(if s < |m| then Offset(m, s) else 0)
  }

  function Assembled(m: Memories): (image: seq<Cell>)
    ensures |image| == |Concat(m)|
  {
    seq(|Concat(m)|, k requires 0 <= k < |Concat(m)| => CellOf(m, Concat(m)[k]))
  }

  /** `write_into_memory`: offsets are relative to the base address. */
  function Load(image: seq<Cell>, base: nat): (r: seq<Cell>)
    ensures |r| == |image|
  {
    seq(|image|, k requires 0 <= k < |image| =>
      match image[k] case Felt(v) => Felt(v) case Address(a) => Address(base + a))
  }

  // ------------------------------------------------------------------------
  // Reading back
  // ------------------------------------------------------------------------

  /** The shape of a value: what a reader of the memory knows about it. */
  datatype Shape = End | Cell(rest: Shape) | Block(elements: Shape, rest: Shape)

  function ShapeOf(fields: Fields): Shape {
    match fields
    case Done => End
    case Number(_, rest) => Shape.Cell(ShapeOf(rest))
    case Array(elements, rest) => Block(ShapeOf(elements), ShapeOf(rest))
  }

  /** Read a value of a shape from address `a` on, chasing pointers, in memory loaded at `base`. */
  function Decode(memory: seq<Cell>, base: nat, a: nat, shape: Shape): Option<Fields>
    decreases shape
  {
    match shape
    case End => Some(Done)
    case Cell(rest) =>
      if base <= a < base + |memory| && memory[a - base].Felt? then
        match Decode(memory, base, a + 1, rest)
        case None => None
        case Some(more) => Some(Number(memory[a - base].value, more))
      else None
    case Block(elements, rest) =>
      if base <= a < base + |memory| && memory[a - base].Address? then
        match (Decode(memory, base, memory[a - base].offset, elements), Decode(memory, base, a + 1, rest))
        case (Some(inner), Some(more)) => Some(Array(inner, more))
        case _ => None
      else None
  }

  /** Segment `s` holds `fields` from index `i` on, with arrays in segments of higher numbers. */
  ghost predicate Stored(m: Memories, s: nat, i: nat, fields: Fields)
    decreases fields
  {
    match fields
    case Done => true
    case Number(v, rest) => s < |m| && i < |m[s]| && m[s][i] == Value(v) && Stored(m, s, i + 1, rest)
    case Array(elements, rest) =>
      && s < |m| && i < |m[s]| && m[s][i].Pointer? && s < m[s][i].segment < |m|
      && Stored(m, m[s][i].segment, 0, elements) && |m[m[s][i].segment]| == elements.Length()
      && Stored(m, s, i + 1, rest)
  }

  /** Only entries added to `s` and segments added at the end: what is stored in `s` stays. */
  lemma {:induction false} StoredStays(m: Memories, n: Memories, s: nat, i: nat, fields: Fields)
    requires Stored(m, s, i, fields) && s < |m| <= |n| && m[s] <= n[s]
    requires forall t :: s < t < |m| ==> n[t] == m[t]
    ensures Stored(n, s, i, fields)
    decreases fields
  {
    match fields
    case Done =>
    case Number(_, rest) => StoredStays(m, n, s, i + 1, rest);
    case Array(elements, rest) =>
      StoredStays(m, n, m[s][i].segment, 0, elements);
      StoredStays(m, n, s, i + 1, rest);
  }

  /** Writing appends to its segment, adds segments, and changes no other. */
  lemma {:induction false} WrittenExtends(m: Memories, s: nat, fields: Fields)
    requires s < |m|
    ensures var n := Written(m, s, fields);
      && m[s] <= n[s] && |n[s]| == |m[s]| + fields.Length()
      && forall t :: 0 <= t < |m| && t != s ==> n[t] == m[t]
    decreases fields
  {
    match fields
    case Done =>
    case Number(v, rest) => WrittenExtends(Pushed(m, s, Value(v)), s, rest);
    case Array(elements, rest) =>
      var grown := Pushed(m, s, Pointer(|m|)) + [[]];
      WrittenExtends(grown, |m|, elements);
      WrittenExtends(Written(grown, |m|, elements), s, rest);
  }

  /** What is written is stored, from the end of its segment on. */
  lemma {:induction false} WrittenIsStored(m: Memories, s: nat, fields: Fields)
    requires s < |m|
    ensures Stored(Written(m, s, fields), s, |m[s]|, fields)
    decreases fields
  {
    var n := Written(m, s, fields);
    WrittenExtends(m, s, fields);
    match fields
    case Done =>
    case Number(v, rest) =>
      WrittenExtends(Pushed(m, s, Value(v)), s, rest);
      WrittenIsStored(Pushed(m, s, Value(v)), s, rest);
    case Array(elements, rest) =>
      var child := |m|;
      var grown := Pushed(m, s, Pointer(child)) + [[]];
      var filled := Written(grown, child, elements);
      WrittenExtends(grown, child, elements);
      WrittenIsStored(grown, child, elements);
      WrittenExtends(filled, s, rest);
      WrittenIsStored(filled, s, rest);
      StoredStays(filled, n, child, 0, elements);
  }

  lemma {:induction false} ConcatAt(m: Memories, s: nat, i: nat)
    requires s < |m| && i < |m[s]|
    ensures Offset(m, s) + i < |Concat(m)| && Concat(m)[Offset(m, s) + i] == m[s][i]
  {
    var n := |m| - 1;
    if s < n {
      ConcatAt(m[..n], s, i);
      assert m[..n][..s] == m[..s];
    }
  }

  /** The loaded cell of an entry. */
  lemma LoadedAt(m: Memories, base: nat, s: nat, i: nat)
    requires s < |m| && i < |m[s]|
    ensures var image, k := Load(Assembled(m), base), Offset(m, s) + i;
      && k < |image|
      && image[k] == match m[s][i]
                     case Value(v) => Felt(v)
                     case Pointer(q) => Address(base + if q < |m| then Offset(m, q) else 0)
  {
    ConcatAt(m, s, i);
  }

  /** The image of stored fields, loaded anywhere, decodes to the fields. */
  lemma {:induction false} StoredDecodes(m: Memories, base: nat, s: nat, i: nat, fields: Fields)
    requires s < |m| && Stored(m, s, i, fields)
    ensures Decode(Load(Assembled(m), base), base, base + Offset(m, s) + i, ShapeOf(fields)) == Some(fields)
    decreases fields
  {
    hide Load, Assembled, Offset;
    match fields
    case Done =>
    case Number(_, rest) =>
      LoadedAt(m, base, s, i);
      StoredDecodes(m, base, s, i + 1, rest);
    case Array(elements, rest) =>
      LoadedAt(m, base, s, i);
      StoredDecodes(m, base, m[s][i].segment, 0, elements);
      StoredDecodes(m, base, s, i + 1, rest);
  }

  /** Whatever was written into an empty memory reads back from its image, at any base address. */
  lemma RoundTrip(fields: Fields, base: nat)
    ensures Decode(Load(Assembled(Written([[]], 0, fields)), base), base, base, ShapeOf(fields)) == Some(fields)
  {
    var m := Written([[]], 0, fields);
    WrittenIsStored([[]], 0, fields);
    StoredDecodes(m, base, 0, 0, fields);
    assert m[..0] == [];
  }

  // ------------------------------------------------------------------------
  // The segments form a tree
  // ------------------------------------------------------------------------

  function PointersIn(segment: seq<MemoryEntry>, q: nat): nat {
    if segment == [] then 0
    else PointersIn(segment[..|segment| - 1], q) + if segment[|segment| - 1] == Pointer(q) then 1 else 0
  }

  /** How many entries point to segment `q`. */
  function Pointers(m: Memories, q: nat): nat {
    if m == [] then 0 else Pointers(m[..|m| - 1], q) + PointersIn(m[|m| - 1], q)
  }

  ghost predicate PointForward(m: Memories) {
    forall s, i :: 0 <= s < |m| && 0 <= i < |m[s]| && m[s][i].Pointer? ==> s < m[s][i].segment < |m|
  }

  lemma {:induction false} PushedPointers(m: Memories, s: nat, e: MemoryEntry, q: nat)
    requires s < |m|
    ensures Pointers(Pushed(m, s, e), q) == Pointers(m, q) + if e == Pointer(q) then 1 else 0
  {
    var n := |m| - 1;
    var p := Pushed(m, s, e);
    if s < n {
      PushedPointers(m[..n], s, e, q);
      assert p[..n] == Pushed(m[..n], s, e);
    } else {
      assert p[..n] == m[..n] && p[n][..|m[n]|] == m[n];
    }
  }

  /** Writing points to each of its new segments once, and only to them; all pointers point forward. */
  lemma {:induction false} WrittenPointers(m: Memories, s: nat, fields: Fields, q: nat)
    requires s < |m| && PointForward(m)
    ensures var n := Written(m, s, fields);
      PointForward(n) && Pointers(n, q) == Pointers(m, q) + if |m| <= q < |n| then 1 else 0
    decreases fields
  {
    match fields
    case Done =>
    case Number(v, rest) =>
      PushedPointers(m, s, Value(v), q);
      WrittenPointers(Pushed(m, s, Value(v)), s, rest, q);
    case Array(elements, rest) =>
      var child := |m|;
      var pushed := Pushed(m, s, Pointer(child));
      var grown := pushed + [[]];
      PushedPointers(m, s, Pointer(child), q);
      assert grown[..child] == pushed;
      WrittenPointers(grown, child, elements, q);
      WrittenPointers(Written(grown, child, elements), s, rest, q);
  }

  /** In a written memory every pointer points to a later segment, and every segment but the first has one pointer. */
  lemma SegmentsFormTree(fields: Fields, q: nat)
    ensures var m := Written([[]], 0, fields);
      PointForward(m) && (0 < q < |m| ==> Pointers(m, q) == 1) && Pointers(m, 0) == 0
  {
    var m: Memories := [[]];
    assert m[..0] == [];
    WrittenPointers(m, 0, fields, q);
    WrittenPointers(m, 0, fields, 0);
  }
}
