/** Which member of a structure an offset falls in, through embedded structures and arrays
    (app/tools_code_evidence.py). */
module StructMembers {
  import opened Sequences

  // ---- type information --------------------------------------------------------------------------------

  datatype IsfType = Pointer(target: IsfType)
                   | Base(name: string)
                   | Struct(name: string)
                   | Array(elem: IsfType, count: Option<nat>)
                   | Bitfield(of: IsfType)
                   | Unknown

  /** A field; one without an offset is never looked into. */
  datatype Field = Field(name: string, offset: Option<int>, typ: IsfType)

  /** A structure or union: its size, if recorded, and its fields. */
  datatype StructInfo = StructInfo(size: Option<nat>, fields: seq<Field>)

  /** Base types with their recorded sizes, and structures. */
  datatype Isf = Isf(bases: map<string, Option<nat>>, structs: map<string, StructInfo>)

  function Fields(isf: Isf, struct: string): seq<Field> {
    if struct in isf.structs then isf.structs[struct].fields else []
  }

  /** The sizes assumed where none is recorded. */
  const ASSUMED_SIZES: map<string, nat> :=
    map["pointer" := 8, "char" := 1, "unsigned char" := 1, "signed char" := 1, "_Bool" := 1,
        "short" := 2, "int" := 4, "unsigned int" := 4]

  function BaseSize(isf: Isf, name: string): Option<nat> {
    if name in isf.bases && isf.bases[name].Some? then isf.bases[name]
    else if name in ASSUMED_SIZES then Some(ASSUMED_SIZES[name])
    else None
  }

  /** The byte size of a type, if the type information gives it. */
  function TypeSize(isf: Isf, t: IsfType): Option<nat> {
    match t
    case Pointer(_) => BaseSize(isf, "pointer")
    case Base(name) => BaseSize(isf, name)
    case Struct(name) => if name in isf.structs then isf.structs[name].size else None
    case Array(elem, count) =>
      var size := TypeSize(isf, elem);
      if size.Some? && count.Some? then Some(size.value * count.value) else None
    case Bitfield(of) => TypeSize(isf, of)
    case Unknown => None
  }

  // ---- sizes, as recorded ---------------------------------------------------------------------------------

  /** A base type has the size recorded for it, else the one C usually gives it, if it is a usual one. */
  ghost predicate BaseHasSize(isf: Isf, name: string, n: nat) {
    || (name in isf.bases && isf.bases[name] == Some(n))
    || ((name in isf.bases ==> isf.bases[name].None?)
        && match n
           case 1 => name in {"char", "signed char", "unsigned char", "_Bool"}
           case 2 => name == "short"
           case 4 => name in {"int", "unsigned int"}
           case 8 => name == "pointer"
           case _ => false)
  }

  /** A type has this size: the recorded one of a structure, an array's elements end to end, a
      bitfield's carrier, of any other type the base type's. */
  ghost predicate HasSize(isf: Isf, t: IsfType, n: nat) {
    match t
    case Struct(name) => name in isf.structs && isf.structs[name].size == Some(n)
    case Array(elem, count) => count.Some? && exists m: nat :: HasSize(isf, elem, m) && n == m * count.value
    case Bitfield(of) => HasSize(isf, of, n)
    case Pointer(_) => BaseHasSize(isf, "pointer", n)
    case Base(name) => BaseHasSize(isf, name, n)
    case Unknown => false
  }

  lemma {:induction false} BaseSizeIs(isf: Isf, name: string, n: nat)
    ensures BaseSize(isf, name) == Some(n) <==> BaseHasSize(isf, name, n)
  {
  }

  /** The computed size is the one a type has. */
  lemma {:induction false} TypeSizeIs(isf: Isf, t: IsfType, n: nat)
    ensures TypeSize(isf, t) == Some(n) <==> HasSize(isf, t, n)
    decreases t
  {
    match t
    case Pointer(_) => BaseSizeIs(isf, "pointer", n);
    case Base(name) => BaseSizeIs(isf, name, n);
    case Array(elem, count) =>
      if TypeSize(isf, elem).Some? { TypeSizeIs(isf, elem, TypeSize(isf, elem).value); }
      if count.Some? {
        forall m: nat | HasSize(isf, elem, m) ensures TypeSize(isf, elem) == Some(m) { TypeSizeIs(isf, elem, m); }
      }
    case Bitfield(of) => TypeSizeIs(isf, of, n);
    case _ =>
  }

  /** The recorded field of the structure spans the offset; one of no known size spans one byte. */
  ghost predicate Spans(isf: Isf, struct: string, f: Field, offset: int) {
    && struct in isf.structs && f in isf.structs[struct].fields
    && f.offset.Some? && f.offset.value <= offset
    && (offset == f.offset.value || exists n: nat :: HasSize(isf, f.typ, n) && offset < f.offset.value + n)
  }

  lemma {:induction false} FieldSpans(isf: Isf, struct: string, f: Field, offset: int)
    ensures f in Fields(isf, struct) && FieldHas(isf, f, offset) <==> Spans(isf, struct, f, offset)
  {
    if TypeSize(isf, f.typ).Some? { TypeSizeIs(isf, f.typ, TypeSize(isf, f.typ).value); }
    forall n: nat | HasSize(isf, f.typ, n) ensures TypeSize(isf, f.typ) == Some(n) { TypeSizeIs(isf, f.typ, n); }
  }

  // ---- the field that contains an offset -----------------------------------------------------------------

  /** A field of unknown or zero size takes one byte. */
  function Extent(isf: Isf, t: IsfType): nat {
    var size := TypeSize(isf, t);
    if size.Some? && size.value > 0 then size.value else 1
  }

  predicate FieldHas(isf: Isf, f: Field, offset: int) {
    f.offset.Some? && f.offset.value <= offset < f.offset.value + Extent(isf, f.typ)
  }

  function Hits(isf: Isf, fields: seq<Field>, offset: int): seq<Field> {
    if fields == [] then []
    else
      Hits(isf, fields[..|fields| - 1], offset)
      + if FieldHas(isf, fields[|fields| - 1], offset) then [fields[|fields| - 1]] else []
  }

  lemma {:induction false} HitsAre(isf: Isf, fields: seq<Field>, offset: int)
    ensures forall f :: f in Hits(isf, fields, offset) <==> f in fields && FieldHas(isf, f, offset)
  {
    if fields != [] {
      HitsAre(isf, fields[..|fields| - 1], offset);
      SplitLast(fields);
    }
  }

  /** Lexicographic order of names. */
  predicate NameLe(x: string, y: string) {
    x == [] || (y != [] && (x[0] < y[0] || (x[0] == y[0] && NameLe(x[1..], y[1..]))))
  }

  /** The latest start first, then the least name. */
  predicate FieldLe(x: Field, y: Field) {
    var a, b := if x.offset.Some? then x.offset.value else 0, if y.offset.Some? then y.offset.value else 0;
    a > b || (a == b && NameLe(x.name, y.name))
  }

  lemma {:induction false} NamesTotal(x: string, y: string)
    ensures NameLe(x, y) || NameLe(y, x)
  {
    if x != [] && y != [] { NamesTotal(x[1..], y[1..]); }
  }

  lemma {:induction false} NamesTransitive(x: string, y: string, z: string)
    requires NameLe(x, y) && NameLe(y, z)
    ensures NameLe(x, z)
  {
    if x != [] && y != [] && z != [] && x[0] == y[0] == z[0] { NamesTransitive(x[1..], y[1..], z[1..]); }
  }

  lemma {:induction false} FieldsOrdered()
    ensures TotalPreorder(FieldLe)
  {
    forall x, y ensures FieldLe(x, y) || FieldLe(y, x) { NamesTotal(x.name, y.name); }
    forall x, y, z | FieldLe(x, y) && FieldLe(y, z) ensures FieldLe(x, z) {
      if NameLe(x.name, y.name) && NameLe(y.name, z.name) { NamesTransitive(x.name, y.name, z.name); }
    }
  }

  /** The field of `struct` whose bytes contain `offset`: of several, the one that starts last, and
      of those the one with the least name. */
  function ContainingField(isf: Isf, struct: string, offset: int): (r: Option<Field>)
    ensures r.Some? ==> r.value in Fields(isf, struct) && FieldHas(isf, r.value, offset)
  {
    HitsAre(isf, Fields(isf, struct), offset);
    LeastMeans(Hits(isf, Fields(isf, struct), offset));
    Least(Hits(isf, Fields(isf, struct), offset))
  }

  lemma {:induction false} ContainingFieldMeans(isf: Isf, struct: string, offset: int)
    ensures var r := ContainingField(isf, struct, offset);
            && (r.None? <==> forall f :: f in Fields(isf, struct) ==> !FieldHas(isf, f, offset))
            && (r.Some? ==> forall f :: f in Fields(isf, struct) && FieldHas(isf, f, offset) ==> FieldLe(r.value, f))
  {
    var hits := Hits(isf, Fields(isf, struct), offset);
    HitsAre(isf, Fields(isf, struct), offset);
    LeastMeans(hits);
    forall f | f in Fields(isf, struct) && FieldHas(isf, f, offset) ensures f in hits {}
  }

  /** The first of some fields in the order of `FieldLe`. */
  function Least(hits: seq<Field>): Option<Field> {
    if hits == [] then None
    else
      var least := Least(hits[..|hits| - 1]);
      if least.Some? && FieldLe(least.value, hits[|hits| - 1]) then least else Some(hits[|hits| - 1])
  }

  lemma {:induction false} LeastMeans(hits: seq<Field>)
    ensures var r := Least(hits);
            && (r.None? <==> hits == [])
            && (r.Some? ==> r.value in hits && forall f :: f in hits ==> FieldLe(r.value, f))
  {
    if hits != [] {
      LeastMeans(hits[..|hits| - 1]);
      SplitLast(hits);
      FieldsOrdered();
    }
  }

  /** Names in dictionary order: one starts the other, or the first characters to differ decide. */
  ghost predicate NameBefore(x: string, y: string) {
    x <= y || exists k :: 0 <= k < |x| && k < |y| && x[..k] == y[..k] && x[k] < y[k]
  }

  lemma {:induction false} NameLeBefore(x: string, y: string)
    ensures NameLe(x, y) ==> NameBefore(x, y)
  {
    if x != [] && NameLe(x, y) && x[0] == y[0] {
      NameLeBefore(x[1..], y[1..]);
      assert x == [x[0]] + x[1..] && y == [y[0]] + y[1..];
      if k :| 0 <= k < |x[1..]| && k < |y[1..]| && x[1..][..k] == y[1..][..k] && x[1..][k] < y[1..][k] {
        assert x[..k + 1] == [x[0]] + x[1..][..k] && y[..k + 1] == [y[0]] + y[1..][..k];
        assert x[k + 1] < y[k + 1];
      }
    } else if x != [] && NameLe(x, y) {
      assert x[..0] == y[..0];
    }
  }

  /** Of the fields that span an offset, the one found starts last, and has the first name of those
      that start with it. */
  lemma {:induction false} ContainingFieldSpans(isf: Isf, struct: string, offset: int)
    ensures match ContainingField(isf, struct, offset)
            case None => forall f :: !Spans(isf, struct, f, offset)
            case Some(r) =>
              && Spans(isf, struct, r, offset)
              && forall f {:trigger Spans(isf, struct, f, offset)} :: Spans(isf, struct, f, offset) ==>
                   && f.offset.value <= r.offset.value
                   && (f.offset.value == r.offset.value ==> NameBefore(r.name, f.name))
  {
    ContainingFieldMeans(isf, struct, offset);
    var r := ContainingField(isf, struct, offset);
    if r.Some? { FieldSpans(isf, struct, r.value, offset); }
    forall f | Spans(isf, struct, f, offset)
      ensures r.Some? && f.offset.value <= r.value.offset.value
              && (f.offset.value == r.value.offset.value ==> NameBefore(r.value.name, f.name))
    {
      FieldSpans(isf, struct, f, offset);
      if r.Some? { NameLeBefore(r.value.name, f.name); }
    }
  }

  // ---- descending ------------------------------------------------------------------------------------------

  /** How deep structures embed one another below a type, by a rank of the structures. */
  ghost function Depth(rank: string -> nat, t: IsfType): nat {
    match t
    case Struct(name) => rank(name) + 1
    case Array(elem, _) => Depth(rank, elem)
    case _ => 0
  }

  /** No structure embeds itself: the rank falls along every embedding. */
  ghost predicate WellFounded(isf: Isf, rank: string -> nat) {
    forall name: string, f: Field {:trigger f in Fields(isf, name)} ::
      f in Fields(isf, name) ==> Depth(rank, f.typ) <= rank(name)
  }

  datatype Step = Member(name: string) | Index(i: int)

  /** Where a walk ends: the steps taken, the type there and the offset inside it. */
  datatype Walk = Walk(path: seq<Step>, leaf: IsfType, rest: int)

  function Under(step: Step, below: Walk): Walk { Walk([step] + below.path, below.leaf, below.rest) }

  /** Walks into embedded structures and arrays as far as they are known. */
  function Descend(isf: Isf, t: IsfType, inner: int, ghost rank: string -> nat): Walk
    requires WellFounded(isf, rank)
    decreases Depth(rank, t), t
  {
    match t
    case Struct(name) =>
      var hit := ContainingField(isf, name, inner);
      if hit.None? then Walk([], t, inner)
      else
        var f := hit.value;
        var below := Descend(isf, f.typ, inner - f.offset.value, rank);
        Under(Member(f.name), below)
    case Array(elem, _) =>
      var size := TypeSize(isf, elem);
      if size.None? || size.value == 0 then Walk([], t, inner)
      else
        var below := Descend(isf, elem, inner % size.value, rank);
        Under(Index(inner / size.value), below)
    case _ => Walk([], t, inner)
  }

  /** The innermost member that contains an offset of a structure. */
  datatype MemberHit = MemberHit(path: seq<Step>, leaf: IsfType, memberOffset: int, inner: int, exact: bool)

  function MemberAt(isf: Isf, struct: string, offset: int, ghost rank: string -> nat): Option<MemberHit>
    requires WellFounded(isf, rank)
  {
    var hit := ContainingField(isf, struct, offset);
    if hit.None? then None
    else
      var f := hit.value;
      Some(HitOf(Under(Member(f.name), Descend(isf, f.typ, offset - f.offset.value, rank)), offset))
  }

  function HitOf(w: Walk, offset: int): MemberHit {
    MemberHit(w.path, w.leaf, offset - w.rest, w.rest, w.rest == 0)
  }

  // ---- what a path means -------------------------------------------------------------------------------------

  function FieldNamed(fields: seq<Field>, name: string): (r: Option<Field>)
    ensures r.Some? ==> r.value in fields && r.value.name == name
  {
    if fields == [] then None
    else if fields[0].name == name then Some(fields[0])
    else FieldNamed(fields[1..], name)
  }

  /** The offset and type a path leads to: field offsets and index times element size, summed. An
      index must lie inside an array of known size. */
  function Resolve(isf: Isf, t: IsfType, path: seq<Step>): Option<(int, IsfType)>
    decreases |path|
  {
    if path == [] then Some((0, t))
    else
      match path[0]
      case Member(name) =>
        if !t.Struct? then None
        else
          var f := FieldNamed(Fields(isf, t.name), name);
          if f.None? || f.value.offset.None? then None
          else Plus(f.value.offset.value, Resolve(isf, f.value.typ, path[1..]))
      case Index(i) =>
        if !t.Array? || TypeSize(isf, t.elem).None? || i < 0 then None
        else if t.count.Some? && t.count.value > 0 && i >= t.count.value then None
        else Plus(i * TypeSize(isf, t.elem).value, Resolve(isf, t.elem, path[1..]))
  }

  function Plus(offset: int, r: Option<(int, IsfType)>): Option<(int, IsfType)> {
    if r.None? then None else Some((offset + r.value.0, r.value.1))
  }

  /** Names are the keys of a structure's fields: each field is the one its name looks up. */
  ghost predicate NamesUnique(isf: Isf) {
    forall struct: string, f: Field {:trigger FoundByName(isf, struct, f)} ::
      f in Fields(isf, struct) ==> FoundByName(isf, struct, f)
  }

  ghost predicate FoundByName(isf: Isf, struct: string, f: Field) {
    FieldNamed(Fields(isf, struct), f.name) == Some(f)
  }

  /** An offset inside a type whose size is known and not zero. */
  ghost predicate Inside(isf: Isf, t: IsfType, inner: int) {
    var size := TypeSize(isf, t);
    inner >= 0 && (size.Some? && size.value > 0 ==> inner < size.value)
  }

  /** Nothing more is known below the leaf: no field of it contains the offset, and an array's
      elements have no known size. */
  ghost predicate Innermost(isf: Isf, leaf: IsfType, rest: int) {
    match leaf
    case Struct(name) => ContainingField(isf, name, rest).None?
    case Array(elem, _) => TypeSize(isf, elem).None? || TypeSize(isf, elem).value == 0
    case _ => true
  }

  lemma {:induction false} IndexInside(inner: int, size: nat, count: nat)
    requires size > 0 && inner >= 0
    ensures 0 <= inner % size < size && inner / size >= 0 && (inner / size) * size + inner % size == inner
    ensures count > 0 && inner < size * count ==> inner / size < count
  {
    var q := inner / size;
    if q >= count { Scaled(size, count, q); }
  }

  lemma {:induction false} Scaled(size: nat, x: nat, y: nat)
    requires x <= y
    ensures size * x <= size * y
  {
    assert size * y == size * x + size * (y - x);
  }

  lemma {:induction false} MemberStep(isf: Isf, name: string, f: Field, inner: int, below: Walk)
    requires f.offset.Some? && FieldNamed(Fields(isf, name), f.name) == Some(f)
    requires Sound(isf, f.typ, inner - f.offset.value, below)
    ensures Sound(isf, Struct(name), inner, Under(Member(f.name), below))
  {
    assert ([Member(f.name)] + below.path)[1..] == below.path;
  }

  lemma {:induction false} IndexStep(isf: Isf, elem: IsfType, count: Option<nat>, size: nat, inner: int, below: Walk)
    requires TypeSize(isf, elem) == Some(size) && size > 0 && inner >= 0
    requires count.Some? && count.value > 0 ==> inner / size < count.value
    requires Sound(isf, elem, inner % size, below)
    ensures Sound(isf, Array(elem, count), inner, Under(Index(inner / size), below))
  {
    assert ([Index(inner / size)] + below.path)[1..] == below.path;
    IndexInside(inner, size, 0);
  }

  lemma {:induction false} HitInside(isf: Isf, f: Field, inner: int)
    requires FieldHas(isf, f, inner)
    ensures Inside(isf, f.typ, inner - f.offset.value)
  {
  }

  ghost predicate Sound(isf: Isf, t: IsfType, inner: int, w: Walk) {
    && Resolve(isf, t, w.path) == Some((inner - w.rest, w.leaf))
    && Inside(isf, w.leaf, w.rest) && Innermost(isf, w.leaf, w.rest)
  }

  lemma {:induction false} ElementInside(isf: Isf, elem: IsfType, count: Option<nat>, inner: int, size: nat)
    requires TypeSize(isf, elem) == Some(size) && size > 0 && Inside(isf, Array(elem, count), inner)
    ensures Inside(isf, elem, inner % size)
    ensures count.Some? && count.value > 0 ==> inner / size < count.value
  {
    IndexInside(inner, size, if count.Some? then count.value else 0);
    if count.Some? && count.value > 0 {
      assert TypeSize(isf, Array(elem, count)) == Some(size * count.value);
      Scaled(size, 1, count.value);
    }
  }

  /** The walk's path resolves to the leaf at the offset walked over, the rest lies inside the leaf
      and nothing further is known there. */
  lemma {:induction false} DescendIsSound(isf: Isf, t: IsfType, inner: int, rank: string -> nat)
    requires WellFounded(isf, rank) && NamesUnique(isf) && Inside(isf, t, inner)
    ensures Sound(isf, t, inner, Descend(isf, t, inner, rank))
    decreases Depth(rank, t), t, 1
  {
    match t
    case Struct(name) => StructIsSound(isf, name, inner, rank);
    case Array(elem, count) =>
      var size := TypeSize(isf, elem);
      if size.Some? && size.value > 0 {
        ElementInside(isf, elem, count, inner, size.value);
        DescendIsSound(isf, elem, inner % size.value, rank);
      }
      ArrayIsSound(isf, elem, count, inner, rank);
    case _ =>
  }

  lemma {:induction false} StructIsSound(isf: Isf, name: string, inner: int, rank: string -> nat)
    requires WellFounded(isf, rank) && NamesUnique(isf) && Inside(isf, Struct(name), inner)
    ensures Sound(isf, Struct(name), inner, Descend(isf, Struct(name), inner, rank))
    decreases Depth(rank, Struct(name)), Struct(name), 0
  {
    StructDescends(isf, name, inner, rank);
    match ContainingField(isf, name, inner)
    case Some(f) =>
      FieldBelow(isf, name, f, rank);
      FieldIsSound(isf, name, f, inner, rank);
    case None => Here(isf, Struct(name), inner);
  }

  lemma {:induction false} FieldBelow(isf: Isf, struct: string, f: Field, rank: string -> nat)
    requires WellFounded(isf, rank) && f in Fields(isf, struct)
    ensures Depth(rank, f.typ) < Depth(rank, Struct(struct))
  {
  }

  lemma {:induction false} FieldIsSound(isf: Isf, struct: string, f: Field, offset: int, rank: string -> nat)
    requires WellFounded(isf, rank) && NamesUnique(isf) && f in Fields(isf, struct) && FieldHas(isf, f, offset)
    ensures Sound(isf, Struct(struct), offset,
                  Under(Member(f.name), Descend(isf, f.typ, offset - f.offset.value, rank)))
    decreases Depth(rank, f.typ), f.typ, 2
  {
    var inner := offset - f.offset.value;
    HitInside(isf, f, offset);
    DescendIsSound(isf, f.typ, inner, rank);
    NamedStep(isf, struct, f, offset, inner, Descend(isf, f.typ, inner, rank));
  }

  lemma {:induction false} NamedStep(isf: Isf, struct: string, f: Field, offset: int, inner: int, below: Walk)
    requires NamesUnique(isf) && f in Fields(isf, struct) && FieldHas(isf, f, offset)
    requires inner == offset - f.offset.value && Sound(isf, f.typ, inner, below)
    ensures Sound(isf, Struct(struct), offset, Under(Member(f.name), below))
  {
    assert FoundByName(isf, struct, f);
    MemberStep(isf, struct, f, offset, below);
  }

  lemma {:induction false} StructDescends(isf: Isf, name: string, inner: int, rank: string -> nat)
    requires WellFounded(isf, rank)
    ensures match ContainingField(isf, name, inner)
            case None => Descend(isf, Struct(name), inner, rank) == Walk([], Struct(name), inner)
            case Some(f) =>
              && f in Fields(isf, name) && FieldHas(isf, f, inner)
              && Descend(isf, Struct(name), inner, rank)
                 == Under(Member(f.name), Descend(isf, f.typ, inner - f.offset.value, rank))
  {
  }

  lemma {:induction false} Here(isf: Isf, t: IsfType, inner: int)
    requires Inside(isf, t, inner) && Innermost(isf, t, inner)
    ensures Sound(isf, t, inner, Walk([], t, inner))
  {
  }

  lemma {:induction false} ArrayIsSound(isf: Isf, elem: IsfType, count: Option<nat>, inner: int, rank: string -> nat)
    requires WellFounded(isf, rank) && Inside(isf, Array(elem, count), inner)
    requires var size := TypeSize(isf, elem);
             size.Some? && size.value > 0 ==>
               Sound(isf, elem, inner % size.value, Descend(isf, elem, inner % size.value, rank))
    ensures Sound(isf, Array(elem, count), inner, Descend(isf, Array(elem, count), inner, rank))
  {
    var size := TypeSize(isf, elem);
    if size.Some? && size.value > 0 {
      ElementInside(isf, elem, count, inner, size.value);
      IndexStep(isf, elem, count, size.value, inner, Descend(isf, elem, inner % size.value, rank));
    }
  }

  /** A member is found if and only if some recorded field spans the offset. */
  lemma {:induction false} MemberFound(isf: Isf, struct: string, offset: int, rank: string -> nat)
    requires WellFounded(isf, rank)
    ensures MemberAt(isf, struct, offset, rank).Some? <==> exists f :: Spans(isf, struct, f, offset)
  {
    ContainingFieldSpans(isf, struct, offset);
  }

  /** The member found for an offset: its path, summed up, leads to the reported offset and type,
      the rest lies inside that type, and nothing inside it is known further. */
  lemma {:induction false} MemberIsSound(isf: Isf, struct: string, offset: int, rank: string -> nat)
    requires WellFounded(isf, rank) && NamesUnique(isf) && MemberAt(isf, struct, offset, rank).Some?
    ensures var m := MemberAt(isf, struct, offset, rank).value;
            && Resolve(isf, Struct(struct), m.path) == Some((m.memberOffset, m.leaf))
            && m.memberOffset + m.inner == offset
            && Inside(isf, m.leaf, m.inner) && Innermost(isf, m.leaf, m.inner)
  {
    MemberIsHit(isf, struct, offset, rank);
    FieldHitIsSound(isf, struct, ContainingField(isf, struct, offset).value, offset, rank);
  }

  lemma {:induction false} MemberIsHit(isf: Isf, struct: string, offset: int, rank: string -> nat)
    requires WellFounded(isf, rank) && MemberAt(isf, struct, offset, rank).Some?
    ensures ContainingField(isf, struct, offset).Some?
    ensures var f := ContainingField(isf, struct, offset).value;
            && f in Fields(isf, struct) && FieldHas(isf, f, offset)
            && MemberAt(isf, struct, offset, rank).value
               == HitOf(Under(Member(f.name), Descend(isf, f.typ, offset - f.offset.value, rank)), offset)
  {
  }

  ghost predicate HitIsSound(isf: Isf, t: IsfType, offset: int, m: MemberHit) {
    && Resolve(isf, t, m.path) == Some((m.memberOffset, m.leaf))
    && m.memberOffset + m.inner == offset
    && Inside(isf, m.leaf, m.inner) && Innermost(isf, m.leaf, m.inner)
  }

  lemma {:induction false} FieldHitIsSound(isf: Isf, struct: string, f: Field, offset: int, rank: string -> nat)
    requires WellFounded(isf, rank) && NamesUnique(isf) && f in Fields(isf, struct) && FieldHas(isf, f, offset)
    ensures HitIsSound(isf, Struct(struct), offset,
                       HitOf(Under(Member(f.name), Descend(isf, f.typ, offset - f.offset.value, rank)), offset))
  {
    FieldIsSound(isf, struct, f, offset, rank);
    SoundHit(isf, Struct(struct), offset, Under(Member(f.name), Descend(isf, f.typ, offset - f.offset.value, rank)));
  }

  lemma {:induction false} SoundHit(isf: Isf, t: IsfType, offset: int, w: Walk)
    requires Sound(isf, t, offset, w)
    ensures HitIsSound(isf, t, offset, HitOf(w, offset))
  {
  }
}
