/**
  The reflective view over a decoded protobuf message held by the C++
  parsing layer. The C++ routines are uninterpreted: a `Catalog` supplies,
  per message handle and field, the field's kind, whether it is repeated,
  a repeated field's size, and the raw values the typed extraction routines
  return. The views memoise what they resolve; the memo maps travel with
  the view value, so every access returns the result and the updated view.
 */
module CppParser {
  import opened Common

  /** An opaque handle to a message inside the C++ layer. */
  type Ptr = nat

  /** Field kinds as the C++ layer reports them; `NoField` is its value 0, "no such field". */
  datatype Kind =
    | NoField
    | Uint64 | Uint32 | Bool | Enum
    | Int64 | Int32
    | Double | Float
    | String
    | Message
    | OtherKind(name: string)

  /** The typed extraction routines of the C++ layer. */
  datatype Routine = UintRoutine | IntRoutine | DoubleRoutine | StringRoutine | MessageRoutine

  /** A value as an extraction routine returns it; floating point is kept abstract as a real. */
  datatype Raw = RawUint(u: nat) | RawInt(i: int) | RawDouble(d: real) | RawString(s: string)

  /**
    The arguments that locate a field in a C++ call: a field name, or the
    empty name together with an extension number.
   */
  datatype Query = Query(name: string, ext: Option<int>)

  /** The C++ layer, as total functions of their arguments. */
  datatype Catalog = Catalog(
    kindOf: (Ptr, Query) -> Kind,
    isRepeated: (Ptr, Query) -> bool,
    sizeOf: (Ptr, string) -> nat,
    hasField: (Ptr, string) -> bool,
    getScalar: (Routine, Ptr, Query) -> Raw,
    getMessage: (Ptr, Query) -> Ptr,
    getRepeatedScalar: (Routine, Ptr, Query, int) -> Raw,
    getRepeatedMessage: (Ptr, Query, int) -> Ptr)

  /**
    A view over one message: its handle, whether bracket (extension) access
    is allowed on it, and the memoised attributes and extensions.
   */
  datatype MessageView = MessageView(
    ptr: Ptr,
    isExt: bool,
    cachedAttrs: map<string, Value>,
    cachedExts: map<int, Value>)

  /**
    A lazily decoded repeated field. `ext` is -1 for an ordinary field and
    the extension number otherwise. `len` is read once, at construction.
   */
  datatype RepeatedField = RepeatedField(
    ptr: Ptr,
    fieldName: string,
    kind: Kind,
    ext: int,
    len: nat,
    cachedItems: seq<Option<Value>>)

  /** What an access yields: a primitive unchanged, a nested message view, or a repeated field. */
  datatype Value =
    | Scalar(raw: Raw)
    | Nested(view: MessageView)
    | Repeated(field: RepeatedField)

  /**
    The kind dispatch shared by single and repeated fields: unsigned
    integers, booleans and enums; signed integers; floating point; strings;
    messages. Any other kind has no routine.
   */
  function RoutineFor(k: Kind): (r: Option<Routine>)
    ensures r == Some(UintRoutine) <==> k == Uint64 || k == Uint32 || k == Bool || k == Enum
    ensures r == Some(IntRoutine) <==> k == Int64 || k == Int32
    ensures r == Some(DoubleRoutine) <==> k == Double || k == Float
    ensures r == Some(StringRoutine) <==> k == String
    ensures r == Some(MessageRoutine) <==> k == Message
    ensures r.None? <==> k.NoField? || k.OtherKind?
  {
    match k
    case Uint64 => Some(UintRoutine)
    case Uint32 => Some(UintRoutine)
    case Bool => Some(UintRoutine)
    case Enum => Some(UintRoutine)
    case Int64 => Some(IntRoutine)
    case Int32 => Some(IntRoutine)
    case Double => Some(DoubleRoutine)
    case Float => Some(DoubleRoutine)
    case String => Some(StringRoutine)
    case Message => Some(MessageRoutine)
    case _ => None
  }

  /** A fresh view with empty memo maps. */
  function NewView(ptr: Ptr, isExt: bool): MessageView {
    MessageView(ptr, isExt, map[], map[])
  }

  /**
    A repeated field as constructed: its length is the catalog's size for
    the field name (the empty name for an extension, whose number the size
    query does not receive), and nothing is decoded yet.
   */
  function NewRepeatedField(cat: Catalog, ptr: Ptr, name: string, kind: Kind, ext: int): (f: RepeatedField)
    ensures f.len == cat.sizeOf(ptr, name) && |f.cachedItems| == f.len
    ensures forall i :: 0 <= i < |f.cachedItems| ==> f.cachedItems[i].None?
  {
    var len := cat.sizeOf(ptr, name);
    RepeatedField(ptr, name, kind, ext, len, seq(len, _ => None))
  }

  /** Dispatch on the kind and wrap the raw result: a message handle becomes a fresh non-extension view. */
  function Extract(cat: Catalog, ptr: Ptr, q: Query, kind: Kind): (r: Result<Value>)
    ensures r.Failure? <==> RoutineFor(kind).None?
    ensures r.Failure? ==> r.error == TypeError
    ensures r.Success? && kind == Message ==> r.value == Nested(NewView(cat.getMessage(ptr, q), false))
    ensures r.Success? && kind != Message ==> r.value == Scalar(cat.getScalar(RoutineFor(kind).value, ptr, q))
  {
    match RoutineFor(kind)
    case None => Failure(TypeError)
    case Some(MessageRoutine) => Success(Nested(NewView(cat.getMessage(ptr, q), false)))
    case Some(routine) => Success(Scalar(cat.getScalar(routine, ptr, q)))
  }

  /**
    Resolving a field without the memo: kind 0 raises AttributeError; a
    repeated field becomes a `RepeatedField` with nothing decoded; anything
    else goes through the kind dispatch.
   */
  function Resolve(cat: Catalog, ptr: Ptr, q: Query, name: string, ext: int): (r: Result<Value>)
    ensures cat.kindOf(ptr, q).NoField? ==> r == Failure(AttributeError)
    ensures !cat.kindOf(ptr, q).NoField? && cat.isRepeated(ptr, q) ==>
      r == Success(Repeated(NewRepeatedField(cat, ptr, name, cat.kindOf(ptr, q), ext)))
    ensures !cat.kindOf(ptr, q).NoField? && !cat.isRepeated(ptr, q) ==> r == Extract(cat, ptr, q, cat.kindOf(ptr, q))
  {
    var kind := cat.kindOf(ptr, q);
    if kind.NoField? then Failure(AttributeError)
    else if cat.isRepeated(ptr, q) then Success(Repeated(NewRepeatedField(cat, ptr, name, kind, ext)))
    else Extract(cat, ptr, q, kind)
  }

  function AttrQuery(name: string): Query {
    Query(name, None)
  }

  function ExtQuery(ext: int): Query {
    Query("", Some(ext))
  }

  /** Attribute access: the memoised value if any, else the resolution, memoised when it succeeds. */
  function GetAttr(cat: Catalog, v: MessageView, name: string): (r: (Result<Value>, MessageView))
    ensures r.1.ptr == v.ptr && r.1.isExt == v.isExt && r.1.cachedExts == v.cachedExts
    ensures name in r.1.cachedAttrs <==> r.0.Success?
    ensures r.0.Success? ==> r.1.cachedAttrs[name] == r.0.value
    ensures r.1.cachedAttrs - {name} == v.cachedAttrs - {name}
  {
    if name in v.cachedAttrs then (Success(v.cachedAttrs[name]), v)
    else
      var r := Resolve(cat, v.ptr, AttrQuery(name), name, -1);
      if r.Success? then (r, v.(cachedAttrs := v.cachedAttrs[name := r.value])) else (r, v)
  }

  /**
    Bracket access by extension number: refused with ValueError unless the
    view is an extension root; otherwise as for attributes, keyed by number.
   */
  function GetExtension(cat: Catalog, v: MessageView, ext: int): (r: (Result<Value>, MessageView))
    ensures !v.isExt ==> r == (Failure(ValueError), v)
    ensures r.1.ptr == v.ptr && r.1.isExt == v.isExt && r.1.cachedAttrs == v.cachedAttrs
    ensures v.isExt ==> (ext in r.1.cachedExts <==> r.0.Success?)
    ensures v.isExt && r.0.Success? ==> r.1.cachedExts[ext] == r.0.value
    ensures r.1.cachedExts - {ext} == v.cachedExts - {ext}
  {
    if !v.isExt then (Failure(ValueError), v)
    else if ext in v.cachedExts then (Success(v.cachedExts[ext]), v)
    else
      var r := Resolve(cat, v.ptr, ExtQuery(ext), "", ext);
      if r.Success? then (r, v.(cachedExts := v.cachedExts[ext := r.value])) else (r, v)
  }

  /** Presence of a field, straight from the C++ layer. */
  function HasField(cat: Catalog, v: MessageView, name: string): bool {
    cat.hasField(v.ptr, name)
  }

  /** `Extensions`: a fresh extension-root view over the same message. */
  function Extensions(v: MessageView): (e: MessageView)
    ensures e.ptr == v.ptr && e.isExt
    ensures e.cachedAttrs == map[] && e.cachedExts == map[]
  {
    NewView(v.ptr, true)
  }

  /** Every memoised value is what resolving it afresh would give. */
  predicate Coherent(cat: Catalog, v: MessageView) {
    && (forall name :: name in v.cachedAttrs ==> Resolve(cat, v.ptr, AttrQuery(name), name, -1) == Success(v.cachedAttrs[name]))
    && (forall ext :: ext in v.cachedExts ==> Resolve(cat, v.ptr, ExtQuery(ext), "", ext) == Success(v.cachedExts[ext]))
  }

  /**
    The memo is invisible: on a coherent view, attribute access returns the
    fresh resolution, keeps the view coherent and over the same message, and
    changes nothing when it fails.
   */
  lemma GetAttrIsResolve(cat: Catalog, v: MessageView, name: string)
    requires Coherent(cat, v)
    ensures GetAttr(cat, v, name).0 == Resolve(cat, v.ptr, AttrQuery(name), name, -1)
    ensures Coherent(cat, GetAttr(cat, v, name).1)
    ensures GetAttr(cat, v, name).1.ptr == v.ptr && GetAttr(cat, v, name).1.isExt == v.isExt
    ensures GetAttr(cat, v, name).0.Failure? ==> GetAttr(cat, v, name).1 == v
  {
  }

  /** The same for bracket access on an extension root. */
  lemma GetExtensionIsResolve(cat: Catalog, v: MessageView, ext: int)
    requires Coherent(cat, v) && v.isExt
    ensures GetExtension(cat, v, ext).0 == Resolve(cat, v.ptr, ExtQuery(ext), "", ext)
    ensures Coherent(cat, GetExtension(cat, v, ext).1)
    ensures GetExtension(cat, v, ext).1.ptr == v.ptr && GetExtension(cat, v, ext).1.isExt
    ensures GetExtension(cat, v, ext).0.Failure? ==> GetExtension(cat, v, ext).1 == v
  {
  }

  /** A second access to the same attribute returns the first result and leaves the view as it was. */
  lemma GetAttrMemoised(cat: Catalog, v: MessageView, name: string)
    requires GetAttr(cat, v, name).0.Success?
    ensures var (r, v') := GetAttr(cat, v, name);
      GetAttr(cat, v', name) == (r, v')
  {
  }

  /** A second access to the same extension returns the first result and leaves the view as it was. */
  lemma GetExtensionMemoised(cat: Catalog, v: MessageView, ext: int)
    requires GetExtension(cat, v, ext).0.Success?
    ensures var (r, v') := GetExtension(cat, v, ext);
      GetExtension(cat, v', ext) == (r, v')
  {
  }

  /**
    Bracket access on a view that is not an extension root always raises
    ValueError, memo or not; through `Extensions` it resolves on the same
    message.
   */
  lemma ExtensionRootRequired(cat: Catalog, v: MessageView, ext: int)
    ensures !v.isExt ==> GetExtension(cat, v, ext) == (Failure(ValueError), v)
    ensures GetExtension(cat, Extensions(v), ext).0 == Resolve(cat, v.ptr, ExtQuery(ext), "", ext)
  {
  }

  /** A fresh view is coherent, whatever the catalog. */
  lemma NewViewCoherent(cat: Catalog, ptr: Ptr, isExt: bool)
    ensures Coherent(cat, NewView(ptr, isExt))
  {
  }

  predicate Valid(f: RepeatedField) {
    |f.cachedItems| == f.len
  }

  /** The C++ call for one element: by field name, or by the empty name plus the extension number. */
  function ItemQuery(f: RepeatedField): Query {
    if f.ext == -1 then Query(f.fieldName, None) else ExtQuery(f.ext)
  }

  /** Fetching element `index` afresh: the same kind dispatch, with the repeated routines. */
  function FetchItem(cat: Catalog, f: RepeatedField, index: int): (r: Result<Value>)
    ensures r.Failure? <==> RoutineFor(f.kind).None?
    ensures r.Failure? ==> r.error == TypeError
    ensures r.Success? && f.kind == Message ==>
      r.value == Nested(NewView(cat.getRepeatedMessage(f.ptr, ItemQuery(f), index), false))
    ensures r.Success? && f.kind != Message ==>
      r.value == Scalar(cat.getRepeatedScalar(RoutineFor(f.kind).value, f.ptr, ItemQuery(f), index))
  {
    match RoutineFor(f.kind)
    case None => Failure(TypeError)
    case Some(MessageRoutine) => Success(Nested(NewView(cat.getRepeatedMessage(f.ptr, ItemQuery(f), index), false)))
    case Some(routine) => Success(Scalar(cat.getRepeatedScalar(routine, f.ptr, ItemQuery(f), index)))
  }

  /**
    Element access as the source writes it. Only `index >= len` is checked.
    A negative index in [-len, 0) passes: the memo slot is looked up Python
    style at `len + index`, but the C++ layer is asked for the raw negative
    index, and its answer is memoised in slot `len + index`. An index below
    -len raises IndexError from the memo list itself.
   */
  function GetItemAsWritten(cat: Catalog, f: RepeatedField, index: int): (r: (Result<Value>, RepeatedField))
    requires Valid(f)
    ensures SameField(f, r.1) && Valid(r.1)
    ensures index >= f.len || index + f.len < 0 ==> r == (Failure(IndexError), f)
    ensures var slot := if index < 0 then f.len + index else index;
      0 <= index + f.len && index < f.len ==>
        && r.1.cachedItems == f.cachedItems[slot := r.1.cachedItems[slot]]
        && (r.0.Success? <==> r.1.cachedItems[slot].Some?)
        && (r.0.Success? ==> r.1.cachedItems[slot] == Some(r.0.value))
        && (f.cachedItems[slot].None? ==> r.0 == FetchItem(cat, f, index))
  {
    if index >= f.len || index + f.len < 0 then (Failure(IndexError), f)
    else
      var slot := if index < 0 then f.len + index else index;
      if f.cachedItems[slot].Some? then (Success(f.cachedItems[slot].value), f)
      else
        var r := FetchItem(cat, f, index);
        if r.Success? then (r, f.(cachedItems := f.cachedItems[slot := Some(r.value)])) else (r, f)
  }

  /** Element access bounded to [0, len): any other index raises IndexError. */
  function GetItem(cat: Catalog, f: RepeatedField, index: int): (r: (Result<Value>, RepeatedField))
    requires Valid(f)
    ensures SameField(f, r.1) && Valid(r.1)
    ensures !(0 <= index < f.len) ==> r == (Failure(IndexError), f)
    ensures 0 <= index < f.len ==>
      && r.1.cachedItems == f.cachedItems[index := r.1.cachedItems[index]]
      && (r.0.Success? <==> r.1.cachedItems[index].Some?)
      && (r.0.Success? ==> r.1.cachedItems[index] == Some(r.0.value))
      && (f.cachedItems[index].None? ==> r.0 == FetchItem(cat, f, index))
  {
    if index < 0 || index >= f.len then (Failure(IndexError), f)
    else if f.cachedItems[index].Some? then (Success(f.cachedItems[index].value), f)
    else
      var r := FetchItem(cat, f, index);
      if r.Success? then (r, f.(cachedItems := f.cachedItems[index := Some(r.value)])) else (r, f)
  }

  /** Every memoised element is what fetching it afresh would give. */
  predicate ItemsCoherent(cat: Catalog, f: RepeatedField)
    requires Valid(f)
  {
    forall i :: 0 <= i < f.len && f.cachedItems[i].Some? ==> FetchItem(cat, f, i) == Success(f.cachedItems[i].value)
  }

  /** The field after an access: same message, field, kind, extension and length, memo extended. */
  predicate SameField(f: RepeatedField, f': RepeatedField) {
    f'.ptr == f.ptr && f'.fieldName == f.fieldName && f'.kind == f.kind && f'.ext == f.ext && f'.len == f.len
  }

  /**
    On a coherent field, element access raises IndexError outside [0, len)
    and otherwise returns the fresh fetch; the length never changes and the
    memo stays coherent.
   */
  lemma GetItemIsFetch(cat: Catalog, f: RepeatedField, index: int)
    requires Valid(f) && ItemsCoherent(cat, f)
    ensures var (r, f') := GetItem(cat, f, index);
      && r == (if 0 <= index < f.len then FetchItem(cat, f, index) else Failure(IndexError))
      && SameField(f, f') && Valid(f') && ItemsCoherent(cat, f')
  {
    var (r, f') := GetItem(cat, f, index);
    assert SameField(f, f');
    forall i | 0 <= i < f'.len && f'.cachedItems[i].Some?
      ensures FetchItem(cat, f', i) == Success(f'.cachedItems[i].value)
    {
      assert FetchItem(cat, f', i) == FetchItem(cat, f, i);
    }
  }

  /** A freshly constructed repeated field is valid and coherent. */
  lemma NewRepeatedFieldCoherent(cat: Catalog, ptr: Ptr, name: string, kind: Kind, ext: int)
    ensures Valid(NewRepeatedField(cat, ptr, name, kind, ext))
    ensures ItemsCoherent(cat, NewRepeatedField(cat, ptr, name, kind, ext))
  {
  }

  /** For the indices the library itself uses, the source's access and the bounded one agree. */
  lemma GetItemAgreesOnNonNegative(cat: Catalog, f: RepeatedField, index: int)
    requires Valid(f) && index >= 0
    ensures GetItemAsWritten(cat, f, index) == GetItem(cat, f, index)
  {
  }

  /** A catalog with one repeated INT64 field of two elements, whose element at index i is i. */
  function IndexEchoCatalog(): Catalog {
    Catalog(
      (p: Ptr, q: Query) => Int64,
      (p: Ptr, q: Query) => true,
      (p: Ptr, name: string) => 2,
      (p: Ptr, name: string) => true,
      (r: Routine, p: Ptr, q: Query) => RawInt(0),
      (p: Ptr, q: Query) => p,
      (r: Routine, p: Ptr, q: Query, i: int) => RawInt(i),
      (p: Ptr, q: Query, i: int) => p)
  }

  /**
    Reading element -1 of a two-element field as the source does asks the
    C++ layer for index -1 and memoises that answer in slot 1; a later read
    of element 1 then returns the answer for -1 instead of element 1. The
    bounded access refuses -1. This needs a C++ routine that answers -1 with
    something other than element 1, as `IndexEchoCatalog` does; the field
    value is threaded from one access to the next.
   */
  lemma NegativeIndexPoisonsMemo()
    ensures var cat := IndexEchoCatalog();
      var f := NewRepeatedField(cat, 0, "entity", Int64, -1);
      var (r1, f1) := GetItemAsWritten(cat, f, -1);
      && r1 == Success(Scalar(RawInt(-1)))
      && Valid(f1)
      && GetItemAsWritten(cat, f1, 1).0 == Success(Scalar(RawInt(-1)))
      && FetchItem(cat, f1, 1) == Success(Scalar(RawInt(1)))
      && !ItemsCoherent(cat, f1)
      && GetItem(cat, f, -1).0 == Failure(IndexError)
  {
    var cat := IndexEchoCatalog();
    var f := NewRepeatedField(cat, 0, "entity", Int64, -1);
    assert f.len == 2;
    var (r1, f1) := GetItemAsWritten(cat, f, -1);
    assert f1.cachedItems[1] == Some(Scalar(RawInt(-1)));
  }

  /** An iterator over a repeated field: the index of the next element. */
  datatype Iterator = Iterator(idx: nat, field: RepeatedField)

  /** `__iter__`: a fresh iterator at index 0. */
  function Iter(f: RepeatedField): (it: Iterator)
    ensures it.idx == 0 && it.field == f
  {
    Iterator(0, f)
  }

  /**
    `__next__`: the element at the current index, advancing. IndexError
    from the field ends the iteration with StopIteration and resets the
    index to 0, so the same iterator starts over; any other error passes
    through with the index already advanced.
   */
  function Next(cat: Catalog, it: Iterator): (Result<Value>, Iterator)
    requires Valid(it.field)
  {
    var idx := it.idx + 1;
    var got := GetItem(cat, it.field, idx - 1);
    if got.0 == Failure(IndexError) then (Failure(StopIteration), Iterator(0, got.1))
    else (got.0, Iterator(idx, got.1))
  }

  lemma GetItemPreservesValid(cat: Catalog, f: RepeatedField, index: int)
    requires Valid(f)
    ensures Valid(GetItem(cat, f, index).1) && SameField(f, GetItem(cat, f, index).1)
  {
  }

  /** `n` successive calls of `Next`, with their results in order. */
  function Drain(cat: Catalog, it: Iterator, n: nat): (seq<Result<Value>>, Iterator)
    requires Valid(it.field)
    decreases n
  {
    if n == 0 then ([], it)
    else
      var step := Next(cat, it);
      GetItemPreservesValid(cat, it.field, it.idx);
      var rest := Drain(cat, step.1, n - 1);
      ([step.0] + rest.0, rest.1)
  }

  /** One call of `Next` on a coherent field, at or before the end. */
  lemma NextStep(cat: Catalog, it: Iterator)
    requires Valid(it.field) && ItemsCoherent(cat, it.field) && it.idx <= it.field.len
    requires RoutineFor(it.field.kind).Some?
    ensures var step := Next(cat, it);
      && SameField(it.field, step.1.field) && Valid(step.1.field) && ItemsCoherent(cat, step.1.field)
      && (it.idx < it.field.len ==> step.0 == FetchItem(cat, it.field, it.idx) && step.1.idx == it.idx + 1)
      && (it.idx == it.field.len ==> step.0 == Failure(StopIteration) && step.1.idx == 0)
  {
    GetItemIsFetch(cat, it.field, it.idx);
  }

  /** Fetching depends only on the field's identity, not on its memo. */
  lemma FetchSameField(cat: Catalog, f: RepeatedField, f': RepeatedField, index: int)
    requires SameField(f, f')
    ensures FetchItem(cat, f, index) == FetchItem(cat, f', index)
  {
  }

  /**
    `d` is what draining from `it` to the end gives: the elements from the
    iterator's index on, in order, then StopIteration, with the iterator
    back at 0 over a coherent field of the same length.
   */
  predicate DrainedToEnd(cat: Catalog, it: Iterator, d: (seq<Result<Value>>, Iterator))
    requires it.idx <= it.field.len
  {
    var n := it.field.len - it.idx;
    && |d.0| == n + 1
    && (forall i :: 0 <= i < n ==> d.0[i] == FetchItem(cat, it.field, it.idx + i))
    && d.0[n] == Failure(StopIteration)
    && d.1.idx == 0 && SameField(it.field, d.1.field) && Valid(d.1.field) && ItemsCoherent(cat, d.1.field)
  }

  /** At the end, one call of `Next` stops and resets. */
  lemma DrainAtEnd(cat: Catalog, it: Iterator)
    requires Valid(it.field) && ItemsCoherent(cat, it.field) && it.idx == it.field.len
    requires RoutineFor(it.field.kind).Some?
    ensures DrainedToEnd(cat, it, Drain(cat, it, 1))
  {
    var step := Next(cat, it);
    NextStep(cat, it);
    assert Drain(cat, step.1, 0) == ([], step.1);
    assert Drain(cat, it, 1) == ([step.0] + [], step.1);
  }

  /** Draining one more time is one call of `Next` followed by the rest. */
  lemma DrainUnfold(cat: Catalog, it: Iterator, n: nat)
    requires Valid(it.field)
    ensures Valid(Next(cat, it).1.field)
    ensures Drain(cat, it, n + 1) ==
      ([Next(cat, it).0] + Drain(cat, Next(cat, it).1, n).0, Drain(cat, Next(cat, it).1, n).1)
  {
    GetItemPreservesValid(cat, it.field, it.idx);
  }

  /** The element at the current index in front of a drain from the next index is a drain from the current one. */
  lemma DrainedCons(cat: Catalog, it: Iterator, x: Result<Value>, it': Iterator, d: (seq<Result<Value>>, Iterator))
    requires it.idx < it.field.len && it'.idx == it.idx + 1 && SameField(it.field, it'.field)
    requires x == FetchItem(cat, it.field, it.idx)
    requires DrainedToEnd(cat, it', d)
    ensures DrainedToEnd(cat, it, ([x] + d.0, d.1))
  {
    var n := it.field.len - it.idx;
    var e := [x] + d.0;
    forall i | 0 <= i < n
      ensures e[i] == FetchItem(cat, it.field, it.idx + i)
    {
      if i > 0 {
        assert e[i] == d.0[i - 1];
        FetchSameField(cat, it.field, it'.field, it.idx + i);
      }
    }
    assert e[n] == d.0[n - 1];
  }

  /**
    From index k, draining len - k + 1 times yields the elements k .. len-1
    in order and then StopIteration, leaving the iterator reset to 0.
   */
  lemma {:induction false} DrainFrom(cat: Catalog, it: Iterator)
    requires Valid(it.field) && ItemsCoherent(cat, it.field) && it.idx <= it.field.len
    requires RoutineFor(it.field.kind).Some?
    ensures DrainedToEnd(cat, it, Drain(cat, it, it.field.len - it.idx + 1))
    decreases it.field.len - it.idx
  {
    if it.idx == it.field.len {
      DrainAtEnd(cat, it);
    } else {
      NextStep(cat, it);
      var step := Next(cat, it);
      DrainFrom(cat, step.1);
      DrainUnfold(cat, it, it.field.len - it.idx);
      DrainedCons(cat, it, step.0, step.1, Drain(cat, step.1, it.field.len - it.idx));
    }
  }

  /**
    A fresh iterator over a coherent field yields elements 0 .. len-1 in
    order, then StopIteration, and is back at index 0: iterating again
    starts over.
   */
  lemma IterationRestarts(cat: Catalog, f: RepeatedField)
    requires Valid(f) && ItemsCoherent(cat, f) && RoutineFor(f.kind).Some?
    ensures var d := Drain(cat, Iter(f), f.len + 1);
      && |d.0| == f.len + 1
      && (forall i :: 0 <= i < f.len ==> d.0[i] == FetchItem(cat, f, i))
      && d.0[f.len] == Failure(StopIteration)
      && d.1.idx == 0 && d.1.field.len == f.len
  {
    var it := Iter(f);
    DrainFrom(cat, it);
    assert DrainedToEnd(cat, it, Drain(cat, it, f.len + 1));
  }
}
